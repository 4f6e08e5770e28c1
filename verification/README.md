# A model of the bsqgc collector and its allocator

The repository is a generational collector: young objects are marked from conservative roots by a depth-first
walk, marked non-roots are evacuated through a forward table, old objects are reference counted, dropped roots
feed a queue of decrements that is drained under a budget, and the pages of the round are rebuilt. Below it lies
a page allocator with size classes, free lists, utilization buckets and a pool of empty pages, and a few support
structures: a segmented deque, a four-level page table and an in-place quicksort.

## How the model is built

Each layer has specification functions over values and, beside them, classes whose methods update their fields
the way the source does and are proved to compute those functions. Theorems are stated about the functions, so
the methods inherit them.

- **Graphs and the walk** (`Graph`, `Dfs`, `MarkOrder`): the grey/black walk over finite graphs, what it emits and
  in which order.
- **The heap** (`Heap`, `Marking`, `RootScan`, `PointerSlots`): objects as metadata and slots by address, roots, the
  pending list; which entry a word leads to and which slot is a pointer, in numbers and characters.
- **Evacuation** (`Evacuation`, `EvacuationShape`, `EvacuationCounts`, `EvacuationGraph`): forwarding, copying and
  counting, one object after the other.
- **Decrements** (`Sorting`, `Decrements`, `Draining`, `PendingCounts`): dropped roots, the budgeted queue, and what each
  page counts of it.
- **Whole collections** (`Collection`, `CollectionInvariant`, `CollectionReach`, `CollectionComplete`, `Runs`,
  `Witnesses`, `LaterCollections`): one collection as a function of state and inputs, its invariant, runs of mutator
  steps and collections, and concrete states.
- **The collector in place** (`CollectorSteps`, `Collector`): the thread's state as a class; `Collect` equals the
  collection function.
- **Pages** (`Layout`, `Page`, `PageInfo`, `Utilization`): address arithmetic, free lists, rebuild, classes.
- **Buckets** (`BucketTrees`, `Buckets`, `BucketPages`): the trees as values, runs over them, and the page headers
  linked by left, right and next that represent them.
- **The allocator** (`Store`, `AllocatorState`, `LiveBytes`, `Statistics`, `Allocator`): where every page of one
  object size stands, through allocation, refresh, evacuation, decrements and sweep, and what is live on it.
- **The allocators of a thread** (`WorkDone`, `ThreadAllocators`): up to 64 of them with one count of filled pages, one forward
  table and one collection.
- **Heap and pages joined** (`Joined`): what one allocator proves of the circumstances of a collection.
- **Support** (`ArrayList`, `PageTable`).

An input of a collection is the candidate words the stack and register scan would deliver, the free entries the
evacuation allocator would hand out, the entries of the pages to rebuild, and the decrement budget.

## What a collection relies on

`Collection.Circumstances` names what has to hold for a collection to keep the invariant, beyond the invariant
itself. Where the code does not establish a part on its own, the exact condition is proved:

- *Order.* Objects are marked when pushed, not when popped. `MarkOrder.ChildrenFirstExactly` and
  `Marking.GoodOrderExactly` say for which heaps the order is right for all roots, `EvacuationGraph.SlotExactly`
  says which slot is left pointing at a reset original otherwise, and `Witnesses.SharedComesOutWrong` is an
  instance.
- *Dropped roots.* They are queued and freed without a test of their count. `Draining.PopKeepsClosedExactly` and
  `CollectionComplete.QueueIsDeadExactly` say when that is safe, `Witnesses.CountedDropIsFreed` shows a case where
  it is not. Nor is the root flag tested: an object that waits from an earlier budget and is found again as a root
  is freed (`LaterCollections.WaitingRootIsFreed`, `LaterCollections.ChainRootIsFreed`).
- *Rebuild.* The predicate for the free list frees every unmarked non-root, old and counted or not.
  `CollectionComplete.RebuildKeepsReachedExactly` and `Page.RebuildKeepsRootsExactly` say when the sweep keeps what
  it must, `Witnesses.RebuiltOldIsFreed` shows a case where it does not.

The conditions are not empty: `Witnesses.FirstCollectionIsSafe` meets them for every first collection of an
ordered heap, `Witnesses.PairIsCollectable` is a concrete one with an object to move,
`LaterCollections.QuietCollectionIsSafe` meets them for later collections that find nothing young, and
`LaterCollections.ChainIsFreed` is a concrete one with old objects and a queue. That young objects lie on rebuilt
pages and moved objects do not is proved of the allocator (`Joined.RebuiltPagesExactly`).

The allocator keeps its pages by the utilization it recorded, not by the one they have: a decrement frees an entry
where its page stands, and the page keeps that place until it is processed again. `Store.IsTagged` says so, and
room, order and least recorded utilization follow from it.

Further places where the code differs from what its comments promise, each with its exact condition:

- `pop_front` on the last slot of the only segment follows a null link
  (`ArrayList.FillThenDrainCrashesExactly`), and 16-byte mark-stack entries step over the end of their segment
  (`ArrayList.TailMeetsMaxExactly`, `ArrayList.ElementSizes`).
- An address in the slack behind the last entry resolves to an entry that does not exist
  (`Layout.ResolvesToRealEntryExactly`, `Layout.SlackWitness`).
- The address linked into a free list by a decrement is an entry of the page only without canaries
  (`Layout.FreedEntryExactly`); the model lists entries by index.
- Between 0 and 0.01 a utilization has no class. That never happens with canaries and can happen without
  (`Utilization.EveryPageHasAClassExactly`, `Utilization.CanariesDecide`).
- Bucket removal would drop a chain below the root; no run of insertions and removals puts one there
  (`BucketTrees.RemovalLosesNothingExactly`, `BucketTrees.RemoveKeepsBucket`).

## Model

| member | source | states |
|---|---|---|
| `Dfs.StepDecreases` | src/runtime/memory/gc.cpp:338-373 | each turn of the grey/black loop lowers a measure on unmarked objects and stack colours, so the walk ends on every graph, cyclic ones included |
| `MarkOrder.VisitOrderIsExact` | src/runtime/memory/gc.cpp:338-396 | over any number of roots the walk emits exactly the objects reachable from them, each once |
| `MarkOrder.StackComesOutTopFirst` | src/runtime/memory/gc.cpp:340-372 | whatever lies higher on the mark stack is emitted before what lies lower |
| `MarkOrder.ChildrenFirstExactly` | src/runtime/memory/gc.cpp:338-396 | every object comes out after all its targets, for all root sequences, if and only if the graph is acyclic and no child is reachable from a different child in a later slot |
| `MarkOrder.CycleBreaksOrder` | src/runtime/memory/gc.cpp:362-365 | one cycle is enough to break the order |
| `MarkOrder.SiblingBreaksOrder` | src/runtime/memory/gc.cpp:362-365 | marking on push breaks the order as soon as an earlier sibling is reachable from a later one |
| `Marking.FoundRootsExactly` | src/runtime/memory/gc.cpp:274-336 | the candidate scan records exactly the allocated objects the words resolve to, each once, thanks to the root flag |
| `RootScan.WordResolves` | src/runtime/memory/allocator.h:89-105 | every word in the bytes of entry i of a known page leads to the object of entry i, and to no other |
| `RootScan.WordIsIgnoredExactly` | src/runtime/memory/gc.cpp:274-281 | a word is ignored if and only if its page is unknown or its offset is below 56 |
| `RootScan.RootFoundExactly` | src/runtime/memory/gc.cpp:274-336 | an entry is found as a root if and only if it is allocated and some scanned word lies in its bytes |
| `CollectorSteps.ScanStep` | src/runtime/memory/gc.cpp:282-291 | one more object appends itself to the roots if it is allocated and new, and to the pending roots if it is young besides; nothing before it changes |
| `Marking.PendingYoungExactly` | src/runtime/memory/gc.cpp:338-396 | the pending list ends up with exactly the young objects reachable from the young roots through young objects, each once |
| `Marking.PendingIsClosed` | src/runtime/memory/gc.cpp:338-396 | no listed object points to an allocated young object that is not listed |
| `PointerSlots.RefIsListed` | src/runtime/memory/gc.cpp:351-370 | a young object whose address a listed object holds under mask 1, or word aligned under mask 2, is listed |
| `PointerSlots.ObjectInStringSlot` | src/language/bsqtype.h:5-12 | object addresses are word aligned, so a string slot holding one always counts as a pointer |
| `Marking.PendingIsParented` | src/runtime/memory/gc.cpp:338-396 | every listed object that is no root is pointed to by a listed object |
| `Marking.MarkingReadies` | src/runtime/memory/gc.cpp:338-396 | marking from any candidates leaves a heap and a list that meet everything evacuation relies on |
| `Marking.MovedFirstIsOrder` | src/runtime/memory/gc.cpp:209-258 | evacuated targets precede their referrers in the list exactly when the visit order is children-first for non-roots |
| `Marking.SiblingOrderSuffices` | src/runtime/memory/gc.cpp:338-396 | in an acyclic, sibling-ordered young heap any set of roots gives an order evacuation can use |
| `Marking.GoodOrderExactly` | src/runtime/memory/gc.cpp:338-396 | in an acyclic young heap every candidate sequence gives a usable order if and only if the heap is sibling-ordered |
| `Witnesses.SharedComesOutWrong` | src/runtime/memory/gc.cpp:362-365 | slots [c, b] with b -> c: the walk emits b before c |
| `Evacuation.UpdateNExactly` | src/runtime/memory/gc.cpp:203-227 | after n mask characters exactly the pointer slots seen are forwarded, and each count grows by the slots that now lead to it |
| `PointerSlots.RefIsForwarded` | src/runtime/memory/gc.cpp:203-227 | a reference slot takes the forwarded address and adds one to the count there; every other slot and count stays |
| `PointerSlots.DataIsLeft` | src/runtime/memory/gc.cpp:203-227 | null, an inline string or a word under another mask character is neither forwarded nor counted nor uncounted, even if it is the address of an object |
| `EvacuationShape.KeepRootExactly` | src/runtime/memory/gc.cpp:242-245 | a root stays in place, turns old, has its slots forwarded, and nothing else but counts changes |
| `EvacuationShape.MoveToExactly` | src/runtime/memory/gc.cpp:246-257 | a non-root is copied to a fresh old entry with forwarded slots, the original is reset and holds its forward index, and nothing else but counts changes |
| `EvacuationShape.MoveResets` | src/runtime/common.h:149 | the old place of a moved object keeps nothing but its forward index, and the new one has its type, no flags and the count of its own references |
| `EvacuationShape.EvacNShape` | src/runtime/memory/gc.cpp:230-258 | after any number of iterations processed roots, moved objects, forward table, remaining list and untouched objects are what the rank of each list position says |
| `EvacuationCounts.EdgesGrow` | src/runtime/memory/gc.cpp:203-227 | making one object old adds its pointer slots to the edges of each target and no others |
| `EvacuationCounts.EvacNCounted` | src/runtime/memory/gc.cpp:203-258 | after every iteration, in any order, each count of an old object equals the pointer slots of old objects that lead to it |
| `PointerSlots.CountIsRefs` | src/runtime/memory/gc.cpp:203-258 | an exact count is the number of reference slots of old objects, spelled out by mask character and alignment |
| `EvacuationGraph.ImageIsForwarding` | src/runtime/memory/gc.cpp:215-219 | reading forward index and forward table after the phase gives the image of every originally allocated object |
| `EvacuationGraph.ImageFixed` | src/runtime/memory/gc.cpp:242-245 | old objects and roots are their own image |
| `EvacuationGraph.ImageMoved` | src/runtime/memory/gc.cpp:246-257 | the image of a moved object is the supply entry of its rank among the moved |
| `EvacuationGraph.ImageInjective` | src/runtime/memory/gc.cpp:230-258 | two different allocated objects never share an image |
| `EvacuationGraph.SurvivorAt` | src/runtime/memory/gc.cpp:230-258 | each listed object survives at its image: old, of the same type, with forwarded slots and cleared young flag, and a moved original is no longer allocated |
| `EvacuationGraph.BystanderAt` | src/runtime/memory/gc.cpp:230-258 | allocated objects off the list change in nothing but the count |
| `EvacuationGraph.AllocatedAfter` | src/runtime/memory/gc.cpp:230-258 | nothing is allocated afterwards but bystanders and images |
| `EvacuationGraph.YoungAfter` | src/runtime/memory/gc.cpp:242-256 | what is still young afterwards was not listed and changed in nothing but the count |
| `EvacuationGraph.SlotExactly` | src/runtime/memory/gc.cpp:214-219 | a pointer slot of a survivor holds the image of its old target if and only if that target is a root, is unlisted, or was moved before; otherwise it still holds the reset original |
| `EvacuationGraph.DataPreserved` | src/runtime/memory/gc.cpp:252 | data and null slots are carried over as they were |
| `EvacuationGraph.GraphPreservedExactly` | src/runtime/memory/gc.cpp:203-258 | types, data slots and pointers of all survivors are preserved up to forwarding if and only if moved targets come first in the list |
| `EvacuationGraph.EvacuationKeepsOldClosed` | src/runtime/memory/gc.cpp:203-258 | after the phase old objects point to old objects only |
| `EvacuationGraph.MovedIsCounted` | src/runtime/memory/gc.cpp:203-258 | every evacuated non-root ends with a count of at least one |
| `Sorting.Swap` | src/runtime/support/qsort.h:10-15 | two elements change places and no other moves |
| `Sorting.Partition` | src/runtime/support/qsort.h:17-30 | the pivot lands between smaller and not smaller elements, and the range is permuted within itself |
| `Sorting.QSort` | src/runtime/support/qsort.h:32-40 | the range is sorted in place, permuted within itself, and nothing outside it moves |
| `Sorting.QSortPrefix` | src/runtime/memory/gc.cpp:24-25 | sorting the first n slots gives the sorted sequence of those slots and leaves the rest |
| `Sorting.SortSorts` | src/runtime/support/qsort.h:32-40 | the reference sort orders its input and permutes it |
| `Sorting.SortedIsUnique` | src/runtime/support/qsort.h:32-40 | there is one sorted arrangement of a multiset, so the in-place result is the reference result |
| `Sorting.SortIsStrict` | src/runtime/memory/gc.cpp:286-289 | duplicate-free roots sort strictly, which the merge needs |
| `Collection.DroppedRootsExactly` | src/runtime/memory/gc.cpp:27-54 | the dropped roots are the old roots that are not current roots, each once |
| `Decrements.DecNCountsDown` | src/runtime/memory/gc.cpp:126-149 | after n mask characters each count is lower by exactly the slots seen that lead to it |
| `Decrements.DecNQueues` | src/runtime/memory/gc.cpp:135-145 | the queue grows by exactly the non-roots whose count the walk brought to zero, each once |
| `PointerSlots.RefIsCountedDown` | src/runtime/memory/gc.cpp:126-149 | a reference takes one off its target, and queues the target when that was the last one and it is no root |
| `PendingCounts.MaskCountsQueued` | src/runtime/memory/gc.cpp:135-145 | while the mask is walked each page counts one more for each of its objects queued, and no other |
| `Draining.PopFreesExactly` | src/runtime/memory/gc.cpp:117-168 | an iteration unallocates the first queued object, lowers each count by that object's slots, records its page, and changes nothing else |
| `PointerSlots.FreeingTakesRefs` | src/runtime/memory/gc.cpp:117-168 | freeing an object takes off a count as many as it has reference slots to that target |
| `PendingCounts.PopPendingExactly` | src/runtime/memory/gc.cpp:117-168 | one iteration adds to the pending count of each page its newly queued objects and takes one off the page of the freed object unless that counts nothing |
| `PendingCounts.PopSkips` | src/runtime/memory/gc.cpp:121-124 | an entry that is no longer allocated is taken off the queue and nothing else happens |
| `LaterCollections.DrainFreesInOrder` | src/runtime/memory/gc.cpp:116-168 | a budget of b frees the first b queued objects, and the others wait in the same order |
| `Draining.PopKeepsCounts` | src/runtime/memory/gc.cpp:126-164 | counts stay exact over an iteration |
| `Draining.PopKeepsClosedExactly` | src/runtime/memory/gc.cpp:117-168 | freeing the first queued object leaves no dangling pointer if and only if every pointer counted for it is its own, which the code does not test |
| `Draining.PopKeepsQueue` | src/runtime/memory/gc.cpp:135-145 | the queue stays free of duplicates and holds only old objects with count zero that are no roots |
| `Draining.PopKeepsDecInv` | src/runtime/memory/gc.cpp:117-168 | exact counts, closedness and queue discipline survive every iteration |
| `Draining.PopKeepsCovered` | src/runtime/memory/gc.cpp:117-168 | every old object stays counted, a root, or queued |
| `Draining.PoppedIsGarbage` | src/runtime/memory/gc.cpp:117-168 | what an iteration frees is not reachable from any root |
| `Draining.PopKeepsReached` | src/runtime/memory/gc.cpp:117-168 | whatever a root reaches it still reaches after the iteration |
| `Draining.DrainKeepsInvariant` | src/runtime/memory/gc.cpp:117-168 | for any budget and stopping point the invariants hold, and what roots reach is intact |
| `Draining.DrainKeepsReached` | src/runtime/memory/gc.cpp:117-168 | no budget makes a reachable object unreachable |
| `Draining.PopLowersLive` | src/runtime/memory/gc.cpp:122-124 | each iteration frees exactly one allocated object, so nothing is freed twice |
| `Draining.DrainTerminates` | src/runtime/memory/gc.cpp:116-168 | a run frees as many objects as it records pages, at most its budget, and a budget of the live objects empties the queue |
| `Draining.DrainedIsExact` | src/runtime/memory/gc.cpp:108-168 | with an empty queue and no cycle the old objects are exactly those reachable from roots |
| `Draining.PopKeepsPendingBounded` | src/runtime/memory/gc.cpp:138-161 | no iteration lets a page's pending count exceed the queued objects on that page |
| `Draining.DrainKeepsPendingBounded` | src/runtime/memory/gc.cpp:117-168 | nor does a whole drain of any budget |
| `Draining.PendingNeverWraps` | src/runtime/memory/gc.cpp:138-161 | at every point of the mask loop of an iteration each page's pending count is below 65536, so the 16-bit field never wraps |
| `PendingCounts.DrainKeepsAllBut` | src/runtime/memory/gc.cpp:116-168 | whatever the budget, the objects of a page that wait uncounted are no more than when draining started |
| `PendingCounts.CollectKeepsAllBut` | src/runtime/memory/gc.cpp:413-460 | a collection leaves no more of them than there were and dropped roots on that page |
| `Witnesses.CountedDropIsFreed` | src/runtime/memory/gc.cpp:33-36 | a dropped root with count one is freed although a root points to it |
| `Collection.MarkingKeepsCounts` | src/runtime/memory/gc.cpp:338-396 | flags do not disturb exact counts or closedness |
| `CollectionInvariant.QueueBeforeDrain` | src/runtime/memory/gc.cpp:22-57 | before draining the queue holds, each once, what was waiting and the dropped roots |
| `LaterCollections.QueueOrder` | src/runtime/memory/gc.cpp:27-54 | dropped roots line up behind what waits, in address order |
| `CollectionInvariant.BeforeDrainInv` | src/runtime/memory/gc.cpp:413-433 | marking, evacuation and dead-root computation hand draining everything it relies on |
| `CollectionInvariant.DrainedInv` | src/runtime/memory/gc.cpp:413-433 | the invariants hold after the budgeted drain, and what roots reach is intact since evacuation |
| `CollectionInvariant.RebuildLeavesOld` | src/runtime/memory/allocator.cpp:32-51 | after the sweep only old objects are allocated, and no survivor is young |
| `CollectionInvariant.CollectKeepsInv` | src/runtime/memory/gc.cpp:413-460 | a whole collection re-establishes exact counts, closedness, flag-free metadata, sorted duplicate-free old roots, and that every old object is counted, an old root or pending; nothing is young afterwards |
| `CollectionInvariant.CollectKeepsPending` | src/runtime/memory/gc.cpp:413-460 | pending counts are within the queue on each page when draining starts, and again when the collection is over |
| `CollectionReach.HomeIsReached` | src/runtime/memory/gc.cpp:413-424 | what a root reached before marking it reaches after evacuation, at its forwarded address |
| `CollectionReach.NothingReachableIsLost` | src/runtime/memory/gc.cpp:413-460 | everything reachable from a root survives the whole collection, with type, data slots and forwarded pointers, and roots keep their addresses |
| `PointerSlots.RefAfterCollect` | src/runtime/memory/gc.cpp:413-460 | after a collection a reference slot of a listed object holds the new address of its target, which is old, and a data slot what it held |
| `CollectionComplete.EvacKeepsAcyclic` | src/runtime/memory/gc.cpp:203-258 | an acyclic heap stays acyclic under evacuation |
| `CollectionComplete.DrainedCollectionIsExact` | src/runtime/memory/gc.cpp:413-460 | if the queue ends empty in an acyclic heap, the allocated objects are exactly those reachable from the roots |
| `CollectionComplete.UnreferencedExactly` | src/runtime/memory/gc.cpp:203-258 | an old object has count zero after evacuation if and only if neither an old object nor a marked young object points to it |
| `CollectionComplete.QueueIsDeadExactly` | src/runtime/memory/gc.cpp:33-36 | what is about to be freed has count zero and no root flag if and only if before the collection it is no root and nothing old or reachable young points to it |
| `CollectionComplete.ReachedIsLeftExactly` | src/runtime/memory/gc.cpp:413-460 | other conditions given, an object reached from a found root is left by the collection if and only if it is young, or a found root, or off the rebuilt pages |
| `CollectionComplete.RebuildKeepsReachedExactly` | src/runtime/common.h:172 | other conditions given, a collection leaves everything found roots reach if and only if every old object they reach on a rebuilt page is itself a found root |
| `Witnesses.FirstCollectionIsSafe` | src/runtime/memory/gc.cpp:413-460 | a collection with nothing old yet meets every condition, on any acyclic, sibling-ordered young heap and any roots, given free entries and a rebuild of all young pages |
| `Witnesses.PairIsCollectable` | src/runtime/memory/gc.cpp:413-460 | a root with one young child and two free entries meets the invariant and the conditions of a collection |
| `Witnesses.PairIsLinked` | src/runtime/memory/gc.cpp:413-460 | in that heap the child is reached from the found root |
| `PointerSlots.PairIsMoved` | src/runtime/memory/gc.cpp:413-460 | under mask 2 as under mask 1 the collection moves the child and leads the slot to its new place |
| `Witnesses.RebuiltOldIsFreed` | src/runtime/common.h:172 | an old, counted, reachable object on a rebuilt page is freed |
| `LaterCollections.QuietCollectionIsSafe` | src/runtime/memory/gc.cpp:413-460 | a later collection that finds nothing young meets every condition when waiting and dropped objects are uncounted, waiting ones are not found again, and rebuilt pages hold found roots only |
| `LaterCollections.ChainIsFreed` | src/runtime/memory/gc.cpp:413-460 | old objects linked in a chain, the head dropped now or waiting since an earlier collection: the conditions hold, the queue is not empty, and a budget of two frees both |
| `LaterCollections.WaitingRootIsFreed` | src/runtime/memory/gc.cpp:116-163 | an object that waits from an earlier budget and is found again as a root is freed by the next iteration, whatever its count |
| `LaterCollections.ChainRootIsFreed` | src/runtime/memory/gc.cpp:116-163 | the chain with its head waiting and found again is such a case, with every other condition met |
| `Runs.MutationKeepsInv` | src/runtime/memory/allocator.h:498-514 | allocating and filling young objects keeps the invariant |
| `Runs.StepKeepsInv` | src/runtime/memory/gc.cpp:413-460 | so does any step of mutator or collector |
| `Runs.RunKeepsInv` | src/runtime/memory/gc.cpp:413-460 | the invariant holds in every state of every run of mutation and collections from the empty heap |
| `Runs.RunIsExact` | src/runtime/memory/gc.cpp:413-460 | in any run, a collection of an acyclic heap that drains its queue leaves exactly the reachable objects |
| `Runs.RunPendingFits` | src/runtime/memory/gc.cpp:138-161 | in every state of every run a page's pending count is at most its waiting objects, at most 4096 |
| `PendingCounts.RunCountsWaiting` | src/runtime/memory/gc.cpp:138-161 | in every state of every run a page counts at most its waiting objects, and at least those less the ones that entered as dropped roots |
| `Runs.RunNeverWraps` | src/runtime/memory/gc.cpp:138-161 | inside every drain of every run, at any point of any iteration, no pending count reaches 65536 |
| `Runs.HeldObjectsPersist` | src/runtime/memory/gc.cpp:413-460 | an old object held by roots at every collection between two states is unchanged between them |
| `Collector.ThreadInfo.CheckPotentialPtr` | src/runtime/memory/gc.cpp:274-295 | a word that resolves to an allocated, unflagged object flags and records it, and queues it when young; any other word changes nothing |
| `Collector.ThreadInfo.WalkStack` | src/runtime/memory/gc.cpp:297-336 | scanning all words gives the found roots, their flags and the young ones among them |
| `Collector.ThreadInfo.PushChildren` | src/runtime/memory/gc.cpp:351-370 | the unmarked young children are marked and pushed grey in slot order |
| `Collector.ThreadInfo.WalkSingleRoot` | src/runtime/memory/gc.cpp:338-373 | the loop computes the run of the grey/black walk on the young graph |
| `Collector.ThreadInfo.VisitRoot` | src/runtime/memory/gc.cpp:388-395 | one pending root is one step of the walk over roots |
| `Collector.ThreadInfo.MarkingWalk` | src/runtime/memory/gc.cpp:375-399 | heap, roots and pending list become the marked heap, the found roots and the visit order |
| `Collector.ThreadInfo.UpdatePointers` | src/runtime/memory/gc.cpp:203-227 | slots and counts become those of the pointer update |
| `Collector.ThreadInfo.KeepInPlace` | src/runtime/memory/gc.cpp:242-245 | a root is one keep step |
| `Collector.ThreadInfo.Evacuate` | src/runtime/memory/gc.cpp:246-257 | a non-root is one move step |
| `Collector.ThreadInfo.ProcessMarkedYoungObjects` | src/runtime/memory/gc.cpp:230-258 | heap and forward table become those of the whole evacuation |
| `Collector.ThreadInfo.QueueDroppedRoots` | src/runtime/memory/gc.cpp:27-54 | the merge loop appends exactly the dropped roots |
| `Collector.ThreadInfo.ComputeDeadRootsForDecrement` | src/runtime/memory/gc.cpp:22-57 | roots are sorted in place, dropped roots queued, old roots cleared |
| `Collector.ThreadInfo.DecrementChildren` | src/runtime/memory/gc.cpp:126-149 | counts, queue and pending counts become those of the decrement over the mask |
| `Collector.ThreadInfo.ProcessFirstDecrement` | src/runtime/memory/gc.cpp:117-168 | one loop iteration is one pop; a queue entry no longer allocated is skipped |
| `Collector.ThreadInfo.ProcessDecrements` | src/runtime/memory/gc.cpp:108-168 | the loop is the budgeted run, and the decremented-pages index stays inside its array |
| `Collector.ThreadInfo.RebuildPage` | src/runtime/memory/allocator.cpp:32-51 | exactly the entries to be freed are reset and listed in ascending order |
| `CollectorSteps.FreeAmongExactly` | src/runtime/memory/allocator.cpp:32-51 | the list of a rebuilt page holds in ascending order its entries that are unallocated, or no root and unmarked or uncounted |
| `Collector.ThreadInfo.RebuildPages` | src/runtime/memory/allocator.cpp:145-154 | rebuilding page after page is one sweep of all their entries |
| `Collector.ThreadInfo.CarryRootsOver` | src/runtime/memory/gc.cpp:449-459 | root and mark flags are cleared and the roots become the old roots |
| `Collector.ThreadInfo.Collect` | src/runtime/memory/gc.cpp:413-460 | one collection, phase by phase and in place, equals the collection function of state and inputs |
| `Layout.EntriesFitAndAreDisjoint` | src/runtime/memory/allocator.cpp:13-20 | entries lie inside the page and do not overlap |
| `Layout.ResolvesExactly` | src/runtime/memory/allocator.h:89-94 | an address past the header resolves to entry i exactly when it lies in the bytes of entry i, and masking gives its page |
| `Layout.EntryRoundTrip` | src/runtime/memory/allocator.h:85-110 | every address inside a real entry leads back to the page and the entry |
| `Layout.ResolvesToRealEntryExactly` | src/runtime/memory/allocator.h:95-105 | resolution names a real entry if and only if the address is not in the slack behind the last one |
| `Layout.SlackWitness` | src/runtime/memory/allocator.h:95-105 | with canaries and 24-byte objects a slack address resolves to entry 50 of 50 |
| `Layout.AtMost63Entries` | src/runtime/memory/allocator.h:25-29 | a page of the checked build holds at most 63 entries |
| `Layout.ObjectsAreAligned` | src/runtime/memory/allocator.h:159-163 | object addresses are word aligned |
| `Layout.FreedEntryExactly` | src/runtime/memory/gc.cpp:153 | the address a decrement links is an entry address of the page if and only if there are no canaries |
| `Page.PushConses` | src/runtime/memory/gc.cpp:152-166 | pushing an unlisted free entry puts it in front of the list and keeps the list well formed |
| `Page.TakePops` | src/runtime/memory/allocator.h:506-510 | taking removes exactly the first listed entry, and a complete list stays complete |
| `Page.TakeWrites` | src/runtime/memory/allocator.h:506-510 | the metadata given goes to the first listed entry and to no other |
| `Page.InitializeListsAll` | src/runtime/memory/allocator.cpp:6-30 | a page initialized over free entries lists all of them in address order |
| `Page.RebuildExactly` | src/runtime/memory/allocator.cpp:32-51 | rebuilding makes any page's list well formed, complete and ascending, of exactly the entries the predicate frees, and keeps the others unchanged |
| `Page.RebuildIsIdempotent` | src/runtime/memory/allocator.cpp:32-51 | a second rebuild changes neither metadata nor list |
| `Page.RebuildKeepsRootsExactly` | src/runtime/common.h:172 | a rebuild keeps exactly the allocated roots if and only if no other allocated object is both marked and counted |
| `Page.LiveEntriesExactly` | src/runtime/memory/allocator.cpp:186-190 | entrycount minus freecount counts the allocated entries if and only if the list misses no free entry |
| `PageInfo.PageInfo.Initialize` | src/runtime/memory/allocator.cpp:6-30 | the header fields and links become the initialized page |
| `PageInfo.PageInfo.Rebuild` | src/runtime/memory/allocator.cpp:32-51 | the in-place loop computes the rebuilt page |
| `PageInfo.PageInfo.TakeEntry` | src/runtime/memory/allocator.h:506-510 | the first listed entry is unlinked and marked |
| `PageInfo.PageInfo.GiveEntry` | src/runtime/memory/gc.cpp:152-166 | the freed entry becomes the first of the list |
| `Utilization.GetBucketIndex` | src/runtime/memory/allocator.h:187-202 | the accumulating loop finds exactly the step of 0.05 the utilization lies in |
| `Utilization.BucketsInNumbers` | src/runtime/memory/allocator.h:175-202 | twelve low and six high buckets, each 0.05 wide and closed above |
| `Utilization.EveryPageHasAClassExactly` | src/runtime/memory/allocator.h:179-183 | no free count leaves a page without a class if and only if pages hold at most 100 entries |
| `Utilization.CanariesDecide` | src/runtime/memory/allocator.h:179-183 | with canaries every page has a class; without, a page of 126 8-byte entries with one object has none |
| `Utilization.EqualExactly` | src/runtime/memory/allocator.h:185 | on pages of one size the tolerance of 0.00001 is equality |
| `Utilization.ToleranceIsFineExactly` | src/runtime/memory/allocator.h:185 | the tolerance tells all free counts of a page apart if and only if pages have less than 100000 entries |
| `Utilization.PageNeedsMoved` | src/runtime/memory/gc.cpp:59-106 | a processed page is moved if and only if its class or bucket changed |
| `Utilization.SameClassExactly` | src/runtime/memory/gc.cpp:59-106 | two pages are in one place if and only if both are empty, both above 0.90, or both in one of eighteen steps of 0.05 |
| `BucketTrees.InsertKeepsBucket` | src/runtime/memory/allocator.h:228-285 | insertion adds exactly the page, keeps smaller left and not smaller right, and chains nowhere but at an equal root |
| `BucketTrees.InsertedWhere` | src/runtime/memory/allocator.h:247-283 | an equal page joins the end of the root's chain, a smaller one the left subtree and a larger one the right, and nothing else changes |
| `BucketTrees.RemovedFromChain` | src/runtime/memory/allocator.h:369-373 | equal pages leave the root in the order they came |
| `BucketTrees.RemovalLosesNothingExactly` | src/runtime/memory/allocator.h:369-392 | removal takes out exactly one page if and only if the leftmost node below the root has no chain |
| `BucketTrees.RemoveKeepsBucket` | src/runtime/memory/allocator.h:357-397 | from a bucket, removal takes exactly one page, of least utilization, and leaves a bucket |
| `Buckets.InsertIntoBuckets` | src/runtime/memory/allocator.cpp:101-108 | inserting into a class adds exactly the page, in the bucket of its utilization |
| `Buckets.RemoveFromBuckets` | src/runtime/memory/allocator.h:357-397 | removal takes exactly one page of least utilization over all buckets, and finds nothing only when all are empty |
| `Buckets.RunConserves` | src/runtime/memory/allocator.h:228-397 | over any interleaving of insertions and removals the order holds, and pages left plus pages taken are pages at first plus pages put in |
| `BucketPages.HungBelow` | src/runtime/memory/allocator.h:263-283 | linking the page at the end of its way turns the pointers of the tree into those of the tree with the page inserted |
| `BucketPages.CutBelow` | src/runtime/memory/allocator.h:385-392 | linking the leftmost node's right subtree to its parent cuts exactly that node |
| `BucketPages.RootPromoted` | src/runtime/memory/allocator.h:369-373 | the next page of the root's chain takes over both subtrees |
| `BucketPages.AppendToChain` | src/runtime/memory/allocator.h:250-259 | the loop links the page behind the last of the chain |
| `BucketPages.InsertPageInBucket` | src/runtime/memory/allocator.h:228-285 | the pointers of the bucket become those of the tree with the page inserted; other pages and buckets stay |
| `BucketPages.LowestPage` | src/runtime/memory/allocator.h:360-366 | the walk stops at the leftmost page and remembers the page above it |
| `BucketPages.RemoveLowestPage` | src/runtime/memory/allocator.h:357-394 | the pointers of one bucket become those of the tree without its lowest page |
| `BucketPages.FindLowestUtilPage` | src/runtime/memory/allocator.h:357-397 | the page of least recorded utilization over all buckets is unlinked and returned, or null when all are empty |
| `BucketPages.InsertPageInClass` | src/runtime/memory/allocator.cpp:101-108 | a processed page ends in the bucket of its utilization |
| `BucketPages.OrderVisitsOnce` | src/runtime/memory/allocator.cpp:192-204 | the statistics traversal visits every page of a bucket, chains included, once |
| `BucketPages.TraverseBST` | src/runtime/memory/allocator.cpp:192-204 | the traversal adds object size times allocated entries of every page of the bucket |
| `Store.ProcessedPageIsKeptExactly` | src/runtime/memory/allocator.cpp:90-126 | a processed page stands in exactly one more place and no other page moves, if and only if its utilization has a class |
| `Store.PlacedWhere` | src/runtime/memory/allocator.cpp:90-126 | a page with f of n entries free goes to the pool if f is n, low if 0.01 to 0.60 of it is used, high up to 0.90, and above that to the pending or the filled pages by its recorded utilization and whether it is the evacuation page |
| `Statistics.StandsExactly` | src/runtime/memory/allocator.cpp:90-126 | after a sweep the recorded utilization alone says in which place a page stands |
| `Store.LowTaken` | src/runtime/memory/allocator.h:399-407 | the page taken for allocation leaves exactly its place, has room, and was not recorded full |
| `Store.HighTaken` | src/runtime/memory/allocator.h:409-420 | so does the page taken for evacuation |
| `Store.NextLowExactly` | src/runtime/memory/allocator.h:399-407 | the next page for allocation is a low page of least recorded utilization, else the first of the pool, else a fresh one |
| `Store.NextHighExactly` | src/runtime/memory/allocator.h:409-420 | the next page for evacuation is a high page of least recorded utilization, else as for allocation |
| `Store.FreedPage` | src/runtime/memory/gc.cpp:152-166 | an entry freed by a decrement becomes the head of its page's list, which stays well formed and, if it was, complete |
| `Store.FreeingKeepsStore` | src/runtime/memory/gc.cpp:152-166 | a page with more free entries than recorded still has its place: classes, order and room hold by recorded utilization, and no page changes place |
| `Store.EmptyPageIsFree` | src/runtime/memory/allocator.cpp:60-66 | a page of the global pool has no allocated entry |
| `AllocatorState.RetireAlloc` | src/runtime/memory/allocator.cpp:163-166 | an allocation page whose list ran out becomes pending, whatever its earlier utilization, and all that is kept stays kept |
| `AllocatorState.RetireEvac` | src/runtime/memory/allocator.h:424-429 | a full evacuation page goes to the filled list, and all that is kept stays kept |
| `AllocatorState.TakeFromAlloc` | src/runtime/memory/allocator.h:498-516 | taking a young entry keeps every page in one place, the cached list in step, and young objects on collected pages |
| `AllocatorState.TakeFromEvac` | src/runtime/memory/allocator.h:518-536 | so does taking an old entry from the evacuation page |
| `AllocatorState.RemarkKeeps` | src/runtime/memory/gc.cpp:413-423 | marks, moves and counts written into allocated entries leave every page in one place; only an evacuated young original stops being allocated here |
| `AllocatorState.FreeKeeps` | src/runtime/memory/gc.cpp:117-168 | an old or young entry freed by a decrement, on any page wherever it stands, keeps every page in one place and no page off the collected ones misses an entry |
| `AllocatorState.SweepAlloc` | src/runtime/memory/allocator.cpp:130-136 | rebuilding and placing the allocation page keeps every page in one place |
| `AllocatorState.SweepPending` | src/runtime/memory/allocator.cpp:145-153 | rebuilding and placing the first pending page keeps every page in one place and never makes it pending again |
| `AllocatorState.YoungFits` | src/runtime/common.h:34-40 | the young objects of an allocator fit into its pending pages and its allocation page |
| `Allocator.GCAllocator.ProcessPage` | src/runtime/memory/allocator.cpp:90-126 | utilization is recorded and the page goes where the branches say |
| `Allocator.GCAllocator.AllocateFreshPage` | src/runtime/memory/allocator.cpp:55-88 | the first page of the pool is initialized and delivered, a new one only when the pool is empty, and no other page moves |
| `Allocator.GCAllocator.GetFreshPageForAllocator` | src/runtime/memory/allocator.h:399-407 | the page delivered is the next one for allocation, and low pages are taken as they are |
| `Allocator.GCAllocator.GetFreshPageForEvacuation` | src/runtime/memory/allocator.h:409-420 | the page delivered is the next one for evacuation, and bucket pages are taken as they are |
| `Allocator.GCAllocator.AllocatorRefreshEvacuationPage` | src/runtime/memory/allocator.h:422-433 | a full evacuation page goes to the filled list, the next one for evacuation is installed with an entry at hand, and no object changes |
| `Allocator.GCAllocator.InstallAllocPage` | src/runtime/memory/allocator.h:399-407 | the next page for allocation is installed with an entry at hand, and no object appears or changes |
| `Allocator.GCAllocator.RetireAllocPage` | src/runtime/memory/allocator.cpp:163-166 | the full allocation page becomes the first pending page, and entries stay as they are |
| `Allocator.GCAllocator.AllocateHere` | src/runtime/memory/allocator.h:498-516 | the entry returned is the first of the cached list, was free, and is now a fresh young object; nothing else changes |
| `Allocator.GCAllocator.AllocateEvacuation` | src/runtime/memory/allocator.h:518-536 | the entry returned was free and is now an old object on the evacuation page; with a list at hand nothing else changes |
| `Allocator.GCAllocator.ProcessCollectorPages` | src/runtime/memory/allocator.cpp:128-155 | the three current places end empty, every page stands in one place with a complete list, exactly the collected pages were swept and recorded at the utilization they have, and nothing is young |
| `Allocator.GCAllocator.Remark` | src/runtime/memory/gc.cpp:413-423 | metadata written by marking, evacuation or counting leaves the allocator sound throughout the collection |
| `Allocator.GCAllocator.FreeEntry` | src/runtime/memory/gc.cpp:116-168 | a decrement frees exactly that entry in place, or skips it when it is no longer allocated, and the allocator stays sound |
| `Statistics.VisitsOnce` | src/runtime/memory/allocator.cpp:206-224 | after the sweep each page is visited once or stands in the pool, and not both |
| `Statistics.VisitedIsAll` | src/runtime/memory/allocator.cpp:206-224 | filled list, high and low buckets together add up the size of all allocated entries of all pages |
| `LiveBytes.OrderAllCounts` | src/runtime/memory/allocator.cpp:192-204 | a traversal of all buckets of a class visits a page as often as it is entered |
| `Allocator.GCAllocator.UpdateMemStats` | src/runtime/memory/allocator.cpp:206-224 | the sum grows by object size times the number of allocated entries over all pages |
| `ThreadAllocators.ThreadAllocators.ForwardTableFits` | src/runtime/common.h:34-46 | when the pages filled in all allocators together are at most the threshold, the young objects of up to 64 allocators fit the one forward table |
| `ThreadAllocators.ThreadAllocators.MovesFit` | src/runtime/memory/gc.cpp:246-256 | so no collection runs past the end of the forward table |
| `ThreadAllocators.ThreadAllocators.EvacuateEach` | src/runtime/memory/allocator.h:518-536 | each object moved gets an entry of its own, free before, in its own allocator; no other entry changes and all allocators stay sound |
| `ThreadAllocators.ThreadAllocators.FreeEach` | src/runtime/memory/gc.cpp:116-168 | exactly the entries freed stop being allocated, in every allocator, and all stay sound |
| `ThreadAllocators.ThreadAllocators.SweepEach` | src/runtime/memory/gc.cpp:440-447 | every allocator ends swept and sound, and the live bytes are those of the objects left in all of them |
| `ThreadAllocators.ThreadAllocators.RemarkEach` | src/runtime/memory/gc.cpp:413-423 | every allocated entry of every allocator has the metadata written for it |
| `WorkDone.WrittenAsIs` | src/runtime/memory/gc.cpp:413-423 | metadata a phase may write arrives unchanged, and entries that are not allocated are left alone |
| `ThreadAllocators.ThreadAllocators.Collect` | src/runtime/memory/gc.cpp:413-460 | every entry of every allocator is what moving, writing, freeing and the sweep of collected pages make of it; afterwards every page stands in one place with a complete list, nothing is young, the counter is zero and the live bytes are exact |
| `ThreadAllocators.ThreadAllocators.RetireAndCount` | src/runtime/memory/allocator.cpp:163-169 | a filled page is pending in its allocator and counted for all |
| `ThreadAllocators.ThreadAllocators.RetireOrCollect` | src/runtime/memory/allocator.cpp:161-176 | the filled page becomes pending and is counted, and everything is collected if and only if that makes 1024 and collections are automatic |
| `ThreadAllocators.ThreadAllocators.AllocatorRefreshPage` | src/runtime/memory/allocator.cpp:158-182 | without a page one is installed and that is all; otherwise the page is retired and nothing collected below the threshold or with collections disabled, and at the threshold nothing stays pending or young in any allocator |
| `ThreadAllocators.ThreadAllocators.Allocate` | src/runtime/memory/allocator.h:498-516 | the entry returned is now a fresh young object on the allocation page; with a list at hand it was the first of that list and nothing else changes in any allocator; the count of filled pages is kept, raised by one or reset as the page and the threshold say |
| `Joined.ObjIsInjective` | src/runtime/memory/allocator.h:85-110 | different entries of different or equal pages are different objects |
| `Joined.YoungIsRebuilt` | src/runtime/memory/allocator.cpp:128-155 | every young object of the heap lies on a page the collection rebuilds |
| `Joined.EvacuationSupply` | src/runtime/memory/allocator.h:518-536 | what one allocator hands out for a collection are distinct entries, none allocated before and none on a rebuilt page |
| `Joined.SupplyIsFree` | src/runtime/memory/allocator.h:518-536 | as addresses of the collector's heap they are free, aligned, distinct and off the rebuilt pages |
| `Joined.RebuiltPagesExactly` | src/runtime/memory/gc.cpp:413-460 | with pages, supply and heap joined for one allocator, the condition on rebuilt pages holds if and only if the old objects on them are found roots |
| `ArrayList.TailMeetsMaxExactly` | src/runtime/support/arraylist.h:175 | the bump pointer ever meets the end of its page if and only if the element size divides the room behind the header |
| `ArrayList.ElementSizes` | src/runtime/support/arraylist.h:175 | 8-byte elements meet the end after 509 slots, 16-byte elements never do |
| `ArrayList.PositionsAreAddresses` | src/runtime/support/arraylist.h:166-169 | comparing head and tail addresses is comparing segment and slot |
| `ArrayList.FillThenDrainCrashesExactly` | src/runtime/support/arraylist.h:183-195 | draining from the front what was pushed follows a null next if and only if the number of elements is a positive multiple of 509 |
| `ArrayList.PopUndoesPush` | src/runtime/support/arraylist.h:171-207 | a pop from the back undoes a push but keeps a page taken for it, which the next pop gives back |
| `ArrayList.ArrayList.Initialize` | src/runtime/support/arraylist.h:121-142 | one page is taken and the list is empty |
| `ArrayList.ArrayList.IsEmpty` | src/runtime/support/arraylist.h:166-169 | head equals tail exactly when the sequence is empty |
| `ArrayList.ArrayList.PushBack` | src/runtime/support/arraylist.h:171-181 | the sequence grows by the element at its end |
| `ArrayList.ArrayList.PushBackSlow` | src/runtime/support/arraylist.h:33-49 | a page is taken and linked behind the tail |
| `ArrayList.ArrayList.PopFront` | src/runtime/support/arraylist.h:183-195 | the first element is returned and removed |
| `ArrayList.ArrayList.ShiftFrontSlow` | src/runtime/support/arraylist.h:51-64 | the first page is unlinked and given back |
| `ArrayList.ArrayList.PopBack` | src/runtime/support/arraylist.h:197-207 | the last element is returned and removed |
| `ArrayList.ArrayList.ShiftBackSlow` | src/runtime/support/arraylist.h:66-79 | the last page is unlinked and given back |
| `ArrayList.ArrayList.Clear` | src/runtime/support/arraylist.h:144-164 | every page taken is given back |
| `PageTable.IndicesJoin` | src/runtime/support/pagetable.h:40-43 | the four 9-bit indices together are bits 47 to 12 |
| `PageTable.SamePageExactly` | src/runtime/support/pagetable.h:40-43 | two addresses take the same way through the table if and only if they agree on bits 47 to 12 |
| `PageTable.FreshTableShowsNothing` | src/runtime/support/pagetable.h:46-61 | hanging in a zeroed table shows no page that was not shown before |
| `PageTable.MarkShowsOne` | src/runtime/support/pagetable.h:63-64 | setting a last slot shows the page at the end of that way and changes no other |
| `PageTable.PageTableInUseInfo.EnsureTable` | src/runtime/support/pagetable.h:45-61 | a missing table is hung in, present ones stay, and what the table shows stays the same |
| `PageTable.PageTableInUseInfo.Insert` | src/runtime/support/pagetable.h:33-65 | the table shows exactly the pages of the addresses inserted so far |
| `PageTable.PageTableInUseInfo.Query` | src/runtime/support/pagetable.h:67-95 | the answer is true exactly when some inserted address lies on the page of the address asked for |

## Left out

- Collector.ThreadInfo.WalkStack: the stack, register and global-data scan itself is machine specific; the words it would deliver are an input, at most 2048 of them root words, and none in the slack of a page.
- Collector.ThreadInfo.CheckPotentialPtr: a word in the slack behind the last entry of a page resolves to bytes that are no entry's metadata, and what is read there is not modelled (`Layout.ResolvesToRealEntryExactly` says which words those are); the roots array holds 2048 entries and the code does not test for more, so fitting is required.
- Collector.ThreadInfo.MarkingWalk: the same two restrictions, on all words of the scan.
- Collector.ThreadInfo.AllocateEvacuation: the collector takes evacuation entries from a given supply; that an allocator's evacuation entries meet what is asked of the supply is proved in `Joined`, and the two classes are not one state.
- Collector.ThreadInfo.ProcessFirstDecrement: the collector's state has no page headers, so the push on the page's free list and its free count are not in this contract; they are in that of `Allocator.GCAllocator.FreeEntry`.
- Collector.ThreadInfo.ProcessDecrements: the move of a page to another bucket after its decrements (`reprocessPageInfo`) is not performed; when it would be is `Utilization.PageNeedsMoved`.
- Collector.ThreadInfo.Collect: page lists, page moves after decrements and live bytes are outside this state; lists and live bytes are in `ThreadAllocators.ThreadAllocators.Collect`.
- Collector.ThreadInfo: its work lists are sequences; the segmented deque behind them is proved separately in `ArrayList`, whose front-pop limit the collector therefore does not see.
- Reference counts are unbounded integers; wrap-around of the 32-bit field is not modelled. The 16-bit pending count is proved never to wrap (`Runs.RunNeverWraps`).
- ArrayList.ArrayList: segments of 509 elements, that is 8-byte elements; for 16-byte elements the segment-end tests never fire, so there is no list behaviour to state.
- Allocator.GCAllocator: its page lists and trees are values; the pointers that represent buckets are proved in `BucketPages`, and pending, filled and pool lists are sequences in place of chains by next.
- Allocator.GCAllocator.AllocateFreshPage: the pool of empty pages is one per object size here and global in the source, so taking over a page of another size, over uncleared metadata, is not modelled.
- Allocator.GCAllocator.Remark: what marking, evacuation and counting write is an arbitrary input, restricted to what `EvacuationGraph.BystanderAt` and `EvacuationGraph.SurvivorAt` prove of them: no survivor is young, and an old object stops being allocated only through a decrement.
- ThreadAllocators.ThreadAllocators.Collect: which objects move and which entries are freed is an input; moved objects are no more than there are young ones, and each freed entry is one of a known page.
- Heap: an object has exactly the words its type declares, so a mask longer than its object is excluded by well-formedness.
- Runs: the mutator allocates and fills young objects and never writes old ones, which is the language's promise to the collector and not something this repository checks.
- Deleting a page from the middle of a bucket (`deletePageFromBucket`, `deleteOldPage`): the two-child branch and duplicates below the root do not remove the page asked for, so there is no contract to prove for them.
- Utilizations are exact rationals; float rounding is not modelled. On pages of one size the tolerance is equality, which is proved.
- Memory mapping, locks, thread-local storage, canary words and timing statistics.
