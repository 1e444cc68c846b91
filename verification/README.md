# A verified model of the virtual machine's memory system and compiler passes

This project models four parts of a Smalltalk virtual machine in Dafny and proves what they are for.

**The generational garbage collector.** Objects live in two semispaces and in old space. An address
is in new space exactly when bit 3 is set. A scavenge copies what survives for the first time to the
other half and promotes what survives for the second time; a full collection then marks from the
roots and sweeps old space. Old objects that point to new space are kept in a remembered set by a
write barrier, by the scavenger and by marking. The free list underneath has 128 bins of exact sizes
and one for larger blocks. The model works on classes whose fields are changed in place, with
forwarding addresses in headers, a recursive scavenger, a growing mark queue and iterators that see
the memory they walk over being rewritten.

The main theorem is `MutatorRuns.Run`: whatever sequence of allocations, barriered stores, loads and
collections a program performs, it observes what it would observe on a store that is never
collected. It rests on `Scavenging.Scavenge` (one scavenge is an isomorphism on exactly what is
kept), `GarbageCollection.MarkRoots` (marked means reachable, and the remembered set is rebuilt
exactly), `Sweeping.Sweep`, `HeapOperations.CollectGarbage` and on `Heaps.Heap.Valid`, the invariant
that `verifyHeap` checks in part.

**The snapshot writer and reader.** A depth-first writer and a recursive reader of cyclic graphs with
sharing. `SnapshotRoundTrips.WriteAndRead` shows that reading what was written yields an isomorphic
copy of exactly the part of the heap that the handles reach.

**Bytecode and register allocation.** Encoding and decoding are inverse to each other up to the order
of send arguments. Live intervals cover all operands of the instructions (up to one exact exception).
The linear scan never gives one register to two variables that are alive at the same instruction, and
spills if and only if somewhere more variables are alive than there are registers.

**Scopes and dictionaries.** `Blocks.HasError` tells without any scopes which nested blocks the analysis
accepts, and `ScopeAnalyses.ScopeAnalysis.AnalyzeMethod` shows that these are exactly the ones; those
that are accepted in spite of an undefined name or an assignment to an argument are characterised too.
Every address that the analysis caches is right and stays right. The open-addressing dictionary agrees
with a map, through its growth, which counts keys again.

## How it is written

An assertion of the C code that fails is a result (`ok == false`, `AssertionFailed`, `Failed`), not a
precondition; the contracts say when it cannot happen, and nothing is said about the state after it.
Code that changes memory step by step is a method on a class, proved against functions and predicates
over values; what those mean is proved by lemmas. `Collections`, `ObjectModel`, `Reachability` and
`Isomorphisms` hold the notions shared by several parts.

Points where the code does not do what its names or comments suggest; the model follows the code:

- The comment on `BYTECODE_COPY` names the destination before the source; encoder and decoder have the source first.
- `freeMapNext` masks with the bin index instead of the index within a byte, so the search skips bins that would fit. `FreeLists.FitIsMissed` gives an instance, `FreeLists.MissedFitIsSkipped` says which bins can be missed, and `FreeLists.FreeList.TryAllocate` tells in bytes which blocks are found.
- `freeListTryAllocate` looks for a block in the last bin but pops the head of that bin. `FreeLists.FreeList.TryAllocate` says exactly when the assertion of the split fails, which is never below 2048 bytes, and `FreeLists.FailSplit` runs into it.
- `allocateObject` stores class and nil without the barrier. `HeapOperations.AllocateObject` states, in terms of the heap before, exactly when the remembered set is incomplete afterwards; `Bootstraps.MissBarrier` gets there from a bootstrapped heap of the real size.
- When code ends without a return, the scan redefines the interval of the receiver one instruction too early. `LiveIntervals.AllUsesAreCovered` states exactly when a use is missed, and `LiveIntervals.MissUse` allocates registers for such code.
- `dictAtPut` returns an association that is not in the dictionary any more when the put made it grow. `Dictionaries.Dictionary.Put` says when, and `Dictionaries.LoseAssociation` does it.
- The error of a nested block replaces the one of the scope around it, also when there is none. An assignment to an undefined name or to an argument is therefore accepted when a block is assigned. `Blocks.AcceptedFlaws` says exactly which flaws are accepted, `ScopeAnalyses.LoseError` analyzes `x := [ ]`.
- `registerObject` goes on with an entry of the dictionary that it has just freed when the dictionary grows while objects are written. `SnapshotRoundTrips.WriteAndRead` says exactly when that happens.

## Model

| member | source | states |
|---|---|---|
| FreeLists.PushKeepsBins | vm/FreeList.c:97-113 | linking a cell in front of the bin of its size keeps every free cell in exactly the bin of its size, on chains without repetition |
| FreeLists.PopKeepsBins | vm/FreeList.c:116-125 | the head of a bin has a size of that bin, its link is the rest of the bin, and without it all bins are still right |
| FreeLists.ToggleKeepsBins | vm/GarbageCollector.c:246-247 | flipping the mark of a free cell, as sweeping does, disturbs no bin |
| FreeLists.FirstSearchedIsBest | vm/FreeList.c:45-70 | the head of the first bin that is searched and not empty is the smallest free block below 2048 bytes that serves the request, and has exactly the requested size only in the bin of that size, so the split that follows elsewhere never fails |
| FreeLists.NoneSearched | vm/FreeList.c:45-84 | when all bins that are searched are empty, a free block serves the request if and only if it is in the last bin and large enough |
| FreeLists.SearchedServes | vm/FreeList.c:147-168 | the bins that are searched are exactly those of the blocks below 2048 bytes that serve the request, told by sizes alone |
| FreeLists.LargeBlocks | vm/FreeList.c:87-94 | bin 128 holds only blocks of at least 2048 bytes |
| FreeLists.MissedFitIsSkipped | vm/FreeList.c:147-168 | if NULL is returned while a free block would fit, that block is in a bin of the same map byte as the first bin looked at, and that bin's number is 8 or more modulo 32 |
| FreeLists.FitIsMissed | vm/FreeList.c:147-168 | a concrete free list where a block of 192 bytes is not found for a request of 128 |
| FreeLists.FreeList.constructor | vm/FreeList.c:17-33 | the initial block is the only free cell, in the bin of its size |
| FreeLists.FreeList.AddFreeSpace | vm/FreeList.c:97-113 | exactly one free cell is added, in front of its bin; map and bins stay in agreement |
| FreeLists.FreeList.PopFreeSpace | vm/FreeList.c:116-125 | exactly the head of the bin is taken away, and the map bit is cleared when the bin becomes empty (part of the invariant) |
| FreeLists.FreeList.FreeMapNext | vm/FreeList.c:147-168 | the bin returned is the first nonempty one from the given bin on when its number is below 8 modulo 32, and else from the next multiple of 8 on; none is returned when there is none |
| FreeLists.FreeList.PopAndSplitFreeSpace | vm/FreeList.c:128-144 | the head is replaced by its remainder; the assertion fails exactly when the head is not strictly larger |
| FreeLists.FreeList.TryAllocate | vm/FreeList.c:45-84 | a block that is returned was free and fits, its remainder stays free and nothing else changes; among the blocks below 2048 bytes it is the smallest that fits, and NULL tells that none fits, apart from larger blocks that the cut mask of the map hides, which are told in bytes; the assertion fails exactly when only a later block of bin 128 is larger, hence never below 2048 bytes |
| FreeLists.FreeList.TryAllocateLarge | vm/FreeList.c:71-84 | NULL exactly when no block of the last bin fits; else its head is taken, and the assertion fails exactly when the head is not strictly larger |
| FreeLists.FailSplit | vm/FreeList.c:71-84 | a freed block of 2048 bytes in front of one of 4096 makes a request for 3200 fail the assertion |
| PageSpaces.PageArithmetic | vm/HeapPage.c:31-52 | cells start and end on 16-byte boundaries and fill the page from its aligned start to its very end, 8 bytes beyond the body size |
| PageSpaces.SplitKeepsTiling | vm/FreeList.c:135-144 | splitting a cell leaves an exact tiling of every page |
| PageSpaces.NewPageKeepsTiling | vm/FreeList.c:184-188 | one cell covers a new page exactly, apart from all other cells |
| PageSpaces.TakeKeepsTiling | vm/Heap.c:110-123 | taking a block from the free cells conserves every byte: used and free cells are disjoint and tile the pages |
| PageSpaces.FreeMoves | vm/Heap.c:92-96 | freeing moves a cell from used to free without changing the tiling |
| PageSpaces.NewPageServes | vm/Heap.c:110-123 | after a failed search, the new page serves the request exactly when it is large enough, and the split fails exactly when the sizes are equal |
| PageSpaces.PageSpace.constructor | vm/HeapPage.c:12-17 | one page, in which no cell is used |
| PageSpaces.PageSpace.SizeAt | vm/HeapPage.c:113-134 | the size read from a header, through the class for an object, is the extent of the cell in the tiling |
| PageSpaces.PageSpace.TryAllocate | vm/HeapPage.c:69-75 | a returned cell was not in use and has exactly the requested size afterwards; on NULL nothing changed |
| PageSpaces.PageSpace.Allocate | vm/Heap.c:110-123 | always a cell of exactly the size, mapping a page if need be; fails exactly for a failed split, a failed mmap or a request too large for a page, and never below 2048 bytes while pages can be had; a page is mapped exactly when no free block serves the request, and then each one that fits is hidden by the cut mask of the map |
| PageSpaces.PageSpace.TryAllocateOld | vm/Heap.c:144-153 | the same with growth only when it is asked for; NULL exactly when growth is not allowed and no searched bin has a fit |
| PageSpaces.PageSpace.FreeCell | vm/Heap.c:92-96 | the cell becomes a free cell of the same size and the tiling is unchanged |
| PageSpaces.StepPassesOne | vm/HeapPage.c:113-134 | a step by the size of the current cell lands on a cell boundary and passes this cell and no other |
| PageSpaces.PageTurnPassesNone | vm/HeapPage.c:113-134 | going on to the next page skips no cell |
| PageSpaces.EndPassesAll | vm/HeapPage.c:113-134 | at the end of the last page all cells were passed |
| PageSpaces.EndTest | vm/HeapPage.c:113-134 | comparing with body plus body size recognises the end of a page exactly, although the last cell ends behind it |
| PageSpaces.PageSpaceIterator.constructor | vm/HeapPage.c:106-110 | no cell was passed at the start |
| PageSpaces.PageSpaceIterator.Next | vm/HeapPage.c:113-134 | returns a cell not passed before and marks just that one as passed; NULL only when all were, provided the sizes of cells not yet passed can still be read |
| RememberedSets.BackwardsIsPermutation | vm/RememberedSet.h:82-125 | going through the blocks from the newest one visits the entries in another order, each as often as it was added |
| RememberedSets.RememberedSet.Add | vm/RememberedSet.h:37-64 | appends the entry, in a new block when the last one is full; older blocks stay full and unchanged |
| RememberedSets.RememberedSet.Reset | vm/RememberedSet.h:67-79 | the set is empty |
| RememberedSets.RememberedSetIterator.constructor | vm/RememberedSet.h:82-90 | a permutation of the entries present now remains to be visited |
| RememberedSets.RememberedSetIterator.HasNext | vm/RememberedSet.h:128-131 | true exactly when an entry remains |
| RememberedSets.RememberedSetIterator.Next | vm/RememberedSet.h:102-125 | returns the first remaining entry and leaves exactly the others |
| RememberedSets.RememberedSetIterator.RemainingIsStable | vm/RememberedSet.h:37-64 | additions during the iteration neither add to nor take from what remains |
| Heaps.SemiSpacesAreEqual | vm/Scavenger.c:22-37 | both halves of the mapped page hold the same number of 16-byte units behind their tagged starts |
| Heaps.HalfFits | vm/Scavenger.c:46-59 | whatever was allocated in one half fits into the other |
| Heaps.ObjectsAreClosed | vm/Heap.c:204-231 | class pointers and pointer variables of objects lead to objects |
| Heaps.Scavenger.constructor | vm/Scavenger.c:22-37 | two equal empty halves |
| Heaps.Scavenger.TryAllocate | vm/Scavenger.c:46-59 | the next bytes of the half, at an address with the new-space tag; NULL, without change, exactly when they do not fit |
| Heaps.Heap.constructor | vm/Heap.c:26-33 | an empty heap satisfies the invariant |
| Heaps.Heap.RememberedSetAdd | vm/RememberedSet.h:37-47 | the object is tagged and listed once more at the end |
| Evacuations.ForwardKeepsInvariant | vm/Scavenger.c:267-292 | leaving a forwarding address and installing the copy keeps the invariant of a running scavenge: copies and corpses correspond one to one, finished survivors are images of their sources |
| Evacuations.FinishKeepsInvariant | vm/Scavenger.c:295-316 | an object whose class and variables are all resolved is the image of its source; it is remembered exactly if it was before, or is old and points to new space |
| Evacuations.TakePendingKeepsInvariant | vm/Scavenger.c:180-187 | taking up a remembered object keeps the invariant, in which remembered objects not yet taken up are as they were before the scavenge; so none of their slots is processed twice |
| Evacuations.CopyFits | vm/Scavenger.c:46-59 | the target half is never exhausted: any object not yet forwarded that survives for the first time still fits |
| Evacuations.ForwardShrinks | vm/Scavenger.c:225-244 | each forwarding leaves fewer unforwarded objects, on which the recursion terminates for every graph |
| EvacuationResults.ForwardingIsInjective | vm/Scavenger.c:267-292 | no two objects have the same copy |
| EvacuationResults.ScavengeIsIsomorphism | vm/Scavenger.c:62-84 | at the end the forwarding addresses are an isomorphism from the old heap onto the survivors, roots included |
| EvacuationResults.SurvivorsAreOk | vm/Heap.c:182-231 | the survivors satisfy the heap invariant with a complete remembered set that lists each object once, and no mark is left |
| EvacuationResults.ForwardedIsKept | vm/Scavenger.c:62-84 | what has a new address is exactly what old objects and roots reach |
| EvacuationResults.PromotionFollowsAge | vm/Scavenger.c:275-285 | an object is promoted exactly when it was allocated before the previous scavenge; old objects stay |
| EvacuationResults.MovedAreYoung | vm/Scavenger.c:275-285 | what takes room in the target half are exactly the kept objects allocated since the previous scavenge |
| Scavenging.AllocateCopy | vm/Scavenger.c:267-285 | a fresh address of the right space and size for every survivor; a promotion has failed exactly when old space has got a page |
| Scavenging.ForwardObject | vm/Scavenger.c:267-292 | exactly one object is copied, and its header leads to a fresh address |
| Scavenging.ProcessPointer | vm/Scavenger.c:225-264 | the slot holds the new address of what it held; other slots of objects being iterated over and other roots are untouched |
| Scavenging.IterateObject | vm/Scavenger.c:295-316 | turns an unfinished survivor into a finished one, remembering it exactly if it is old, points to new space and was not remembered yet |
| Scavenging.IterateRememberedSet | vm/Scavenger.c:180-187 | all remembered old objects become finished, while the scavenge adds entries to the same set |
| Scavenging.IterateRoots | vm/Scavenger.c:94-177 | all roots hold new addresses, which completes the scavenge |
| Scavenging.AddedPointToNew | vm/Scavenger.c:312-315 | what a scavenge adds to the list of remembered objects are exactly old objects that point to new space |
| Scavenging.Scavenge | vm/Scavenger.c:62-84 | from a valid heap to a valid heap that is isomorphic to exactly what old objects and roots reach; old objects are not moved, new ones are promoted by age; a failed promotion is reported exactly when old space has got pages; an old object is listed as remembered afterwards exactly when it was listed before or points to new space; the room left in new space is that of a half without the kept objects that are young; no assertion fails when promoted objects are below 2048 bytes and pages can be had |
| Markings.MarkKeepsInvariant | vm/GarbageCollector.c:180-191 | marking a reachable object keeps marked objects queued exactly once and only reachable ones marked |
| Markings.PopKeepsInvariant | vm/GarbageCollector.c:204-208 | a popped object is reachable, marked and not queued again |
| Markings.FinishKeepsInvariant | vm/GarbageCollector.c:154-177 | an iterated object has marked successors and is in the rebuilt remembered set if and only if it is old and points to new space |
| Markings.EmptyQueueIsMarking | vm/GarbageCollector.c:35-51 | when the queue is empty, marked is reachable and the remembered set is exact |
| GarbageCollection.MarkingQueue.Grow | vm/GarbageCollector.c:194-201 | moving to a larger array keeps the queued objects in order and makes room |
| GarbageCollection.MarkingQueue.Add | vm/GarbageCollector.c:194-201 | appends, however the queue grows |
| GarbageCollection.MarkingQueue.Pop | vm/GarbageCollector.c:204-208 | takes the object added last |
| GarbageCollection.MarkObject | vm/GarbageCollector.c:180-191 | marks and queues the object unless it is marked already |
| GarbageCollection.IterateObject | vm/GarbageCollector.c:154-177 | finishes the object; either nothing is newly marked and the queue is unchanged or fewer objects are unmarked, so marking terminates |
| GarbageCollection.IterateRoots | vm/GarbageCollector.c:54-151 | all roots are marked |
| GarbageCollection.MarkRoots | vm/GarbageCollector.c:35-51 | starting with no marks and an empty remembered set, the marked objects are exactly the reachable ones, each queued once, and the remembered set lists exactly the reachable old objects that point to new space |
| Sweeping.SweepCell | vm/GarbageCollector.c:217-250 | an unmarked object becomes a free cell of the same size, a survivor loses its mark, a free cell has its mark bit flipped |
| Sweeping.NextCell | vm/HeapPage.c:113-134 | each cell comes once although sweeping rewrites the headers that the iterator reads |
| Sweeping.Sweep | vm/GarbageCollector.c:217-250 | every cell of every page is swept once: exactly the marked objects stay in use, unmarked, and the tiling and the pages are unchanged |
| MarkingAndSweeping.SweptIsCollected | vm/Heap.c:163-179 | after marking and sweeping exactly the reachable objects are left, with unchanged contents |
| MarkingAndSweeping.CollectedAreOk | vm/Heap.c:182-231 | what is left satisfies the heap invariant |
| MarkingAndSweeping.CollectedAreListed | vm/Heap.c:163-179 | the remembered set lists no freed cell |
| MarkingAndSweeping.CollectionIsIsomorphism | vm/Heap.c:163-179 | nothing that is reachable is changed or moved |
| MarkingAndSweeping.MarkAndSweep | vm/Heap.c:163-179 | a valid heap becomes a valid heap of exactly the reachable objects; cells in use in old space are exactly the reachable old objects |
| HeapOperations.TryAllocateNew | vm/Heap.c:126-131 | memory of the size behind all objects of new space, or none exactly when it does not fit |
| HeapOperations.CollectForAllocation | vm/Heap.c:126-141 | the collection an allocation triggers keeps the object graph; when old space has got pages, which means that a promotion has failed, it keeps exactly what the roots reach, and else exactly what old objects and roots reach; objects are in old space afterwards exactly when they had survived a scavenge before |
| HeapOperations.Allocate | vm/Heap.c:126-141 | fresh memory of the aligned size; it is in old space if and only if it fits into new space neither as it is nor after a scavenge, both computed from the heap before; the object graph is kept, and nothing at all changes when it fits at once |
| HeapOperations.CollectGarbage | vm/Heap.c:156-160 | scavenge and mark-sweep together keep exactly what the roots reach, isomorphically, from a valid heap to a valid one |
| HeapOperations.FullCollectionIsExact | vm/Heap.c:156-160 | the two steps of a full collection together drop everything that is unreachable, also what dead old objects had kept alive in the first step |
| HeapOperations.NilVars | vm/Heap.c:80-89 | all variables are nil |
| HeapOperations.InitialisedIsValid | vm/Heap.c:44-77 | an initialised object leaves the heap valid if and only if it does not lie in old space with a pointer to new space |
| HeapOperations.NewObjectPointsToNew | vm/Heap.c:44-77 | this happens exactly when its class is new, or nil is new and it has variables |
| HeapOperations.NewObjectFields | vm/Heap.c:44-89 | the new object has as many variables as its shape has named ones, plus its size if it is indexed and not made of bytes, all of them nil; its untraced words and bytes have the sizes of the shape and are zeros |
| HeapOperations.AllocateObject | vm/Heap.c:44-77 | the new object has its class and size, as many variables as its shape and size tell, each of them nil, and zeros for the rest, and everything else is kept; the heap is invalid afterwards if and only if, in the heap before, new space has no room for the object with or without a scavenge and the class is young, or nil is young and the object has variables |
| HeapOperations.RawObjectStorePtr | vm/Thread.h:26-32 | one variable of one object holds the value and everything else is as it was; the object is added to the remembered set exactly when it is old, the value new and it is not remembered yet; the heap stays valid |
| HeapTheorems.PointersAreLive | vm/Heap.c:182-231 | in a valid heap every pointer of an object or root leads to an object of the current half below its top or to a used cell of old space, never to a free cell or the evacuated half |
| ObjectModel.ContentsFit | vm/Object.h:159-175 | the cell of an object holds its header, the size word of an indexed object, its untraced words, variables and bytes, with less than 16 bytes to spare |
| ObjectModel.AlignIsLeast | vm/HeapPage.h:40-43 | aligning gives the least multiple of 16 that is not less |
| HeapTheorems.ContentsAreApart | vm/Object.h:159-175 | in a valid heap the contents of an object end before the next object of its space starts, and in new space before the top |
| HeapTheorems.TwoScavengesPromote | vm/Scavenger.c:275-285 | an object alive across two scavenges is in old space, so nothing is copied between the halves twice |
| Bootstraps.Bootstrap | vm/Bootstrap.c:33-220 | on an empty heap, nil, the classes of classes that describe each other and a class for arrays make a valid heap |
| Bootstraps.MissBarrier | vm/Heap.c:44-77 | in a heap of 32 megabytes of new space, after the bootstrap and an array that fills it, an allocation leaves an old object with a pointer to new space that is not remembered |
| MutatorRuns.PlainOpCommutes | vm/Thread.h:26-32 | loads, stores and comparisons have the same outcome on isomorphic stores and keep them isomorphic |
| MutatorRuns.NewCommutes | vm/Heap.c:44-77 | an allocation, with the collection in it, corresponds to adding an object to a store that is not collected |
| MutatorRuns.CollectionCommutes | vm/Heap.c:156-160 | a collection is not visible at all |
| MutatorRuns.LoadAfterWrite | vm/Thread.h:26-32 | on the uncollected store, a load gives what was written to its place last, whatever is stored elsewhere |
| MutatorRuns.LoadAfterNew | vm/Heap.c:44-77 | on the uncollected store, a new object has the class that was given, just the variables of its shape and size, and nil in each |
| MutatorRuns.Step | vm/Heap.c:126-160 | one operation on the heap is one on the uncollected store with the same outcome; it misses the barrier only when the heap before it says so |
| MutatorRuns.OldHandlesNeedNoBarrier | vm/Heap.c:44-77 | an allocation whose class and nil are old never misses the barrier |
| MutatorRuns.Run | vm/Heap.c:126-179 | every run of a program on the heap is a run on a store that is never collected, with the same outcomes; the heap is valid in the end; no assertion fails while objects are below 2048 bytes and pages can be had; the run breaks off at a missed barrier exactly at an allocation in old space whose class or nil is young at that moment, and never when class and nil are old at each allocation |
| SnapshotFormats.ShapeRoundTrip | vm/Object.h:48-56 | an instance shape is recovered from its packed word |
| SnapshotFormats.HashRoundTrip | vm/Snapshot.c:104-127 | the hash is recovered from the header word |
| SnapshotFormats.EachIdOnce | vm/Snapshot.c:104-148 | in a well-ordered record no object is written inline twice, nor one that had begun before |
| SnapshotWriting.RegisterAllIsOk | vm/Snapshot.c:159-168 | ids of builtin objects are the numbers below the size of the table, each given once |
| SnapshotWriting.BuiltinIds | vm/Snapshot.c:159-168 | handle i has id i for all i if and only if the handles are distinct |
| SnapshotWriting.NextCapacity | vm/Snapshot.c:322-340 | the capacity of the dictionary is a function of the number of its ids: it doubles exactly when it gets full |
| SnapshotWriting.SnapshotWriter.RegisterObject | vm/Snapshot.c:171-188 | an object keeps the id it has or gets the next free one; fails exactly when the dictionary grows and the freed entry would be used |
| SnapshotWriting.SnapshotWriter.WriteObject | vm/Snapshot.c:104-127 | appends the record of the object, writing each object reached on the way inline just once, and terminates on cycles; fails only when the dictionary gets full of reachable objects |
| SnapshotWriting.SnapshotWriter.WriteField | vm/Snapshot.c:130-137 | appends the description of a value |
| SnapshotWriting.SnapshotWriter.WriteFieldObject | vm/Snapshot.c:140-148 | a back reference only for an object whose record has begun, else the record itself |
| SnapshotWriting.SnapshotWriter.RegisterBuiltinObjects | vm/Snapshot.c:159-168 | builtin objects are registered in order and none is written |
| SnapshotWriting.SnapshotWriter.WriteNewObject | vm/Snapshot.c:88-94 | a record for an object that has none yet, nothing otherwise |
| SnapshotWriting.SnapshotWriter.IterateHandles | vm/Snapshot.c:69-85 | the stream consists of inline records, and all objects that handles hold are in them |
| SnapshotWriting.SnapshotWriter.Write | vm/Snapshot.c:58-66 | the stream is a sequence of records in which ids are introduced before use, exactly one for each object reachable from the handles, each describing its object; fails exactly when handles and reachable objects together reach the capacity that the dictionary has with the handles in it, 8192 in general |
| SnapshotReading.ReferenceIsKnown | vm/Snapshot.c:210-224 | a back reference always finds its id in the table |
| SnapshotReading.LoadedIsStable | vm/Snapshot.c:227-265 | objects loaded earlier stay loaded while the reader goes on and fills others |
| SnapshotReading.SnapshotReader.ReadField | vm/Snapshot.c:210-224 | consumes exactly one field and yields the value it describes, an object with its whole subgraph |
| SnapshotReading.SnapshotReader.ReadVars | vm/Snapshot.c:227-265 | fills the variables of the object in order, through everything nested in them |
| SnapshotReading.SnapshotReader.ReadObject | vm/Snapshot.c:227-265 | makes one object for a record, known before its parts are read so that cycles close, with hash, size, bytes, class and variables of the record |
| SnapshotReading.SnapshotReader.Read | vm/Snapshot.c:191-207 | every record of the stream is loaded and exactly its ids are known |
| SnapshotReading.SnapshotReader.CreateBuiltinObjectsHandles | vm/Snapshot.c:277-287 | handle i is the object that was read under id i |
| SnapshotRoundTrips.RestorationIsIsomorphism | vm/Snapshot.c:210-287 | following ids from the written to the read heap is an isomorphism, handles included |
| SnapshotRoundTrips.RestorationIsBijective | vm/Snapshot.c:171-188 | each written object is read back as one object and every object read comes from one written |
| SnapshotRoundTrips.HandlesAreKnown | vm/Snapshot.c:277-287 | a builtin handle can be restored if and only if its object is reachable from the handles that are written |
| SnapshotRoundTrips.WriteAndRead | vm/Snapshot.c:58-287 | for every finite heap and distinct builtin handles among what is written, the heap read back is isomorphic to exactly the reachable part, sharing, cycles, shapes, hashes, bytes and handles included, if and only if there are fewer objects than the dictionary takes without growing (8192, or twice, four times as many when there are that many builtin handles) |
| Bytecodes.WordRoundTrip | vm/Bytecodes.h:260-266 | little-endian bytes give the word back |
| Bytecodes.AssemblerBuffer.EmitOperand | vm/Bytecodes.h:150-187 | appends the type of the operand and the bytes that belong to it |
| Bytecodes.AssemblerBuffer.EmitCopy | vm/Bytecodes.h:81-89 | appends one instruction, source before destination |
| Bytecodes.AssemblerBuffer.EmitSend | vm/Bytecodes.h:92-103 | appends the selector, the number of arguments, the receiver, and the arguments from the last to the first |
| Bytecodes.AssemblerBuffer.EmitSendWithStore | vm/Bytecodes.h:106-118 | the same with the operand for the result behind the arguments |
| Bytecodes.AssemblerBuffer.EmitReturn | vm/Bytecodes.h:121-127 | appends a return from the block or from its method |
| Bytecodes.BytecodesIterator.NextOperand | vm/Bytecodes.h:218-251 | yields the operand that was encoded and consumes just its bytes |
| Bytecodes.BytecodesIterator.NextInstruction | vm/Bytecodes.h:211-266 | yields the instruction that was encoded, arguments in reverse, and consumes just its bytes |
| Bytecodes.EndIsReached | vm/Bytecodes.h:269-272 | instructions take at least a byte, so the position is before the end exactly when instructions are left |
| Bytecodes.Decode | vm/Bytecodes.h:190-272 | decoding the encoding of any list of instructions gives the list back with send arguments reversed, and stops exactly at the end |
| Bytecodes.AsDecodedTwice | vm/Bytecodes.h:92-118 | what is decoded differs from the instruction in nothing but the order of its arguments, which is reversed; so reversing them again gives the instruction back |
| RegisterAllocation.ReleaseKeepsInvariant | vm/RegisterAllocator.c:370-387 | giving back the register of a dead variable keeps free and held registers a permutation of the available ones |
| RegisterAllocation.GiveKeepsInvariant | vm/RegisterAllocator.c:308-340 | giving a free register or taking over a spilled one keeps the permutation and never lets intersecting intervals share a register |
| RegisterAllocation.GiveServes | vm/RegisterAllocator.c:332-337 | a variable is spilled only when registers have run out: every variable has one, or as many variables hold one as there are |
| RegisterAllocation.AllAreAlive | vm/RegisterAllocator.c:319-337 | when no register is free after dead variables were removed, more variables are alive at the start of the new one than there are registers |
| RegisterAllocation.SpilledExactlyForNeed | vm/RegisterAllocator.c:308-340 | somebody is spilled if and only if at some offset more variables are alive than there are registers |
| RegisterAllocation.SortedVars.GetFirstVar | vm/RegisterAllocator.c:350-353 | NULL exactly when the window is empty, else its first variable |
| RegisterAllocation.SortedVars.AddFirstVar | vm/RegisterAllocator.c:356-360 | the variable comes before all others |
| RegisterAllocation.SortedVars.AddLastVar | vm/RegisterAllocator.c:363-367 | the variable comes after all others |
| RegisterAllocation.SortedVars.RemoveVar | vm/RegisterAllocator.c:390-394 | just this variable leaves, the others keep their order, and NULL still follows the window |
| RegisterAllocation.RegsPool.NextReg | vm/RegisterAllocator.c:415-421 | the first free register, or the mark of a spilled variable when there is none |
| RegisterAllocation.RegsPool.ReuseVarReg | vm/RegisterAllocator.c:384-387 | the register is the next one to be given |
| RegisterAllocation.RemoveDeadVars | vm/RegisterAllocator.c:370-381 | only dead variables lose their place; neighbours of removed ones are not looked at, but when no register is free afterwards, every variable that has one is alive |
| RegisterAllocation.AddVar | vm/RegisterAllocator.c:324-330 | a variable that ends before the first one goes to the end of the window, any other to its front |
| RegisterAllocation.Spill | vm/RegisterAllocator.c:332-337 | the variable takes over the register of the first one in the window, which is spilled and leaves; no other register changes |
| RegisterAllocation.GiveRegister | vm/RegisterAllocator.c:320-338 | the variable is added and registers stay right for it and all before; later variables are untouched; fails exactly when the window has come to an end of its array |
| RegisterAllocation.ScanRegisters | vm/RegisterAllocator.c:308-340 | for any number of intervals in the order of their starts, intersecting ones never share a register, registers are available ones, intervals are unchanged, and a variable is spilled if and only if at some offset more are alive than there are registers; it fails only when the window comes to an end of its array, which takes more than 127 variables |
| LiveIntervals.VarsTable.DefineVar | vm/RegisterAllocator.c:292-305 | the variable begins and ends at the offset and is listed last; fails exactly when the list is full |
| LiveIntervals.VarsTable.DefineTmpVar | vm/RegisterAllocator.c:262-272 | the interval is begun or reaches to the offset |
| LiveIntervals.VarsTable.DefineSpecialVar | vm/RegisterAllocator.c:275-289 | the same for contexts, classes and associations, each with a variable of its own; fails exactly when tables are full |
| LiveIntervals.VarsTable.ExamineOperand | vm/RegisterAllocator.c:231-259 | accounts for exactly the uses of the operand, each within the interval of its variable |
| LiveIntervals.VarsTable.ExamineInstruction | vm/RegisterAllocator.c:145-228 | accounts for exactly the uses of the instruction, class lookups of receivers included |
| LiveIntervals.VarsTable.ScanCode | vm/RegisterAllocator.c:145-208 | decodes the whole code and accounts for exactly its uses; fails only when variables get too many for the tables |
| LiveIntervals.VarsTable.DefineArguments | vm/RegisterAllocator.c:75-112 | context, receiver and arguments are defined and alive from the start, nothing is used yet |
| LiveIntervals.DecodedUses | vm/RegisterAllocator.c:145-208 | the reversed order of send arguments does not change what an instruction uses |
| LiveIntervals.UseIsCovered | vm/RegisterAllocator.c:145-208 | a use is covered by its interval if and only if the code returns or the use is not one of the receiver behind the last instruction |
| LiveIntervals.AllUsesAreCovered | vm/RegisterAllocator.c:145-208 | every use is covered if and only if the code returns or does not end with a store through the receiver; temporaries and arguments other than the receiver always are |
| LiveIntervals.MissUse | vm/RegisterAllocator.c:145-208 | after register allocation for a single send that is stored into an instance variable, the receiver is not alive where it is needed |
| LiveIntervals.IntervalsAreTight | vm/RegisterAllocator.c:262-305 | intervals begin and end at a use, those of arguments at the start of the code |
| LiveIntervals.OperandsAreAlive | vm/RegisterAllocator.c:145-259 | told by the instructions: at each of them the source and destination, the receiver with its class, and all arguments are alive, at the one behind it the result; for temporaries and arguments that is the variable itself, for others the receiver, context or association they are found through; the result is not exactly if it is stored through the receiver by the last instruction of code without a return |
| LiveIntervals.ContextIsReached | vm/RegisterAllocator.c:275-289 | the current context is alive where the variable of an outer context begins, which is found from it |
| LiveIntervals.NamedAreTight | vm/RegisterAllocator.c:145-272 | a temporary is defined exactly if an instruction mentions it, and its interval begins with the first that does and ends with the last; that of an argument begins at 0 and ends with the last |
| LiveIntervals.ComputeRegsAlloc | vm/RegisterAllocator.c:75-112 | variables alive at the same instruction never share a register, context, receiver and arguments are alive from the start, and a variable is spilled if and only if at some offset more are alive than there are registers; succeeds whenever variables and uses are at most 128 |
| Dictionaries.MapHasEntries | vm/Dictionary.c:41-63 | the map of a table has exactly its entries |
| Dictionaries.HomeIsRemainder | vm/Dictionary.c:232-244 | for capacities that are powers of two, a search starts at the remainder of the hash |
| Dictionaries.CountIsSize | vm/Dictionary.c:35-38 | the number of entries is the number of keys |
| Dictionaries.SearchEnds | vm/Dictionary.c:232-244 | a table with fewer keys than places ends every search |
| Dictionaries.NilEndsSearch | vm/Dictionary.c:232-244 | a search that comes to a place not in use has shown that the key is not there |
| Dictionaries.InsertKeepsTable | vm/Dictionary.c:41-63 | an entry stored where its search ended can be found, and so can all others |
| Dictionaries.Dictionary.constructor | vm/Dictionary.c:15-24 | an empty map |
| Dictionaries.Dictionary.FindIndex | vm/Dictionary.c:232-244 | terminates at the key or at the first place not in use on its way |
| Dictionaries.Dictionary.At | vm/Dictionary.c:127-139 | the value of the key in the map, nil when it has none |
| Dictionaries.Dictionary.Put | vm/Dictionary.c:41-63 | the map is updated at the key and nowhere else; the tally stays at least the number of keys and below the capacity; growth happens exactly when a new key fills the last place of the count, and then the returned association is not the stored one |
| Dictionaries.Dictionary.Grow | vm/Dictionary.c:88-115 | the map is unchanged and the capacity doubled with all keys counted again, or quadrupled when every place was in use; the recursion with put terminates |
| Dictionaries.LoseAssociation | vm/Dictionary.c:41-63 | filling a dictionary of any capacity, the last put returns an association that is not in it although its key is |
| Scopes.CtxCopyRoundTrip | vm/Variable.h:69-84 | a context slot can be read back from the descriptor if and only if it is not 255 |
| Scopes.CapturedIsStable | vm/Scope.c:285-316 | later captures never invalidate an address that is cached in an inner scope |
| Scopes.CaptureKeepsInvariant | vm/Scope.c:285-316 | giving a variable the next context slot keeps all addresses right and the slots of a scope distinct and below its context size |
| Scopes.CacheKeepsInvariant | vm/Scope.c:285-316 | a right address may be cached in the scope that uses it |
| Scopes.FoundIsOk | vm/Scope.c:285-316 | what the walk up the scopes finds, with the levels added, is the right address, also when it was cached on the way |
| Scopes.NotFoundIsNotDeclared | vm/Scope.c:285-316 | a walk that comes to the end has shown that no block around declares the name and that it is no instance variable |
| Scopes.AddressesAreDistinct | vm/Scope.c:285-316 | captured variables with the same slot of the same scope are the same variable, and the slot is below the context size |
| Blocks.AcceptedFlaws | vm/Scope.c:159-250 | a block that is accepted has an undefined or redefined name or a bad assignment somewhere if and only if it has an expression that assigns a block, maybe in parentheses, to a target that is an error by itself |
| Blocks.ErrorsAreFlaws | vm/Scope.c:159-250 | a block that is rejected has such a flaw |
| ScopeDefinitions.AnalyzeDefinitions | vm/Scope.c:101-156 | pseudo-variables, arguments and temporaries are defined in the scope with consecutive numbers; an error exactly when a name is declared twice |
| ScopeDefinitions.NewScopeKeepsInvariant | vm/Scope.c:361-368 | a new scope with the definitions of its block keeps all addresses right |
| Visibility.AddressIsRight | vm/CodeGeneratorX64.c:999-1016 | every address means what the name denotes: following `level` parents leads to the innermost block that declares it and `index` is its slot in the context there; else the instance variable, else the global of that name |
| Visibility.ResolvedIsKnown | vm/Scope.c:253-282 | only names that a block around declares, instance variables and globals get addresses |
| Visibility.LooksAreRight | vm/Scope.c:195-208 | type and context copy of a descriptor tell exactly whether the innermost declaration of the name is an argument, self or super, also when the address was cached from a scope around |
| AnalyzedBlocks.AnalyzedIsStable | vm/Scope.c:80-98 | a block that was analyzed stays so while the analysis goes on |
| AnalyzedBlocks.ReceiverIsDone | vm/Scope.c:159-165 | behind the receiver there is no error if and only if the receiver is fine and either it is a block or nothing was wrong before and with the assignments |
| AnalyzedBlocks.FewNeverFill | vm/Scope.c:291-306 | a scope gives away no more context slots than its block declares names |
| ScopeAnalyses.ScopeAnalysis.SetupBlockMetasAsContexts | vm/Scope.c:319-325 | all scopes from the use up to the declaration have contexts, and no variable is changed |
| ScopeAnalyses.ScopeAnalysis.CaptureVar | vm/Scope.c:291-306 | only a variable that needs a slot gets one; fails exactly when 255 are given away |
| ScopeAnalyses.ScopeAnalysis.AnalyzeContextVar | vm/Scope.c:285-316 | the name gets its address, or is declared by no block around and is no instance variable; fails only when a byte would overflow |
| ScopeAnalyses.ScopeAnalysis.AnalyzeVar | vm/Scope.c:253-282 | a name that is known where it is used gets its address and leaves the error alone, any other one makes it an undefined variable; a use of the context gives its scope one |
| ScopeAnalyses.ScopeAnalysis.AnalyzeTarget | vm/Scope.c:195-208 | the error is set exactly when the target is no variable, unknown, or an argument, self or super of the innermost block that declares it |
| ScopeAnalyses.ScopeAnalysis.AnalyzeTargets | vm/Scope.c:179-192 | there is no error afterwards if and only if there was none and no target is one; targets in front of the first one that is have addresses |
| ScopeAnalyses.ScopeAnalysis.AnalyzeInstanceVars | vm/Scope.c:62-77 | instance variables have the numbers of their places |
| ScopeAnalyses.ScopeAnalysis.AnalyzeExpression | vm/Scope.c:159-176 | with or without an error before: none afterwards if and only if receiver and arguments are fine and the receiver is a block or the assignments and what was before are fine too; then every name in it has its address |
| ScopeAnalyses.ScopeAnalysis.AnalyzeArgs | vm/Scope.c:219-232 | the arguments of messages are analyzed up to the first that is an error |
| ScopeAnalyses.ScopeAnalysis.AnalyzeLiteral | vm/Scope.c:235-250 | the error of a block replaces that of the scope around it, a name adds one if it is unknown, other literals leave it alone |
| ScopeAnalyses.ScopeAnalysis.AnalyzeBlock | vm/Scope.c:80-98 | the scope of the block ends without an error if and only if the block is one that `HasError` accepts, each error has a reason of its kind, and without one every use in the block and in blocks inside has an address, apart from targets of assignments behind an error that was lost |
| ScopeAnalyses.ScopeAnalysis.AnalyzeMethod | vm/Scope.c:38-59 | the same for a whole method, to which instance variables are known; no byte overflows with up to 256 blocks of fewer than 255 names each, thisContext, super and self included |
| ScopeAnalyses.LostIsAccepted | vm/Scope.c:159-250 | `x := [ ]` with a name that nobody declares is accepted in spite of the undefined variable |
| ScopeAnalyses.LoseError | vm/Scope.c:159-250 | its analysis ends without an error and leaves no address for the name |
| TempNumbering.ProcessVariables | vm/Compiler.c:211-239 | temporaries on the frame are numbered consecutively without gaps behind the arguments, each captured argument is copied to its slot once, nothing else changes |

## Left out

- Native stack walking, stack maps, exception handlers and pointers embedded in machine code: all pointer slots outside the heap are one array of roots. Marking in vm/GarbageCollector.c does not visit exception handlers while the scavenger does; with one array the model does not show the difference.
- Finalizers (vm/GarbageCollector.c:230-234 and 252-260): they run arbitrary code.
- The assembler, the code generator, stubs, primitives and the machine-code store check; vm/CodeGeneratorX64.c is only cited for what an address means.
- vm/Optimizer.c, the jump bytecodes and OPERAND_INST_VAR_OF: unfinished.
- `objectBecome`, the lookup cache and type feedback.
- Native code space and `allocateNativeCode`, and releasing pages or the heap.
- mmap is a function of the pages mapped so far that never returns overlapping pages and may fail; files, streams and their errors are left out, and a word of a snapshot is one token, so byte order is not modelled.
- Hashes are an uninterpreted function in the dictionary and arbitrary numbers in objects.
- The 64-bit width of words and sizes: numbers are unbounded, except where a field is a byte or a word is packed.
- Dead objects are forgotten by the model at the end of a collection; in memory their words stay where they are.
- PageSpaces.PageSpace.Allocate: says nothing about the state after a failed assertion, as the program stops there.
- FreeLists.FreeList.FreeMapNext: the byte behind the map that the loop looks at is taken to be zero, and shifts by more than 31 take the shift count modulo 32.
- Bootstraps.Bootstrap: one class for arrays and one for nil stand for the many that are made in the same way; symbols, globals and the kernel sources are left out.
- HeapOperations.AllocateObject: the class and nil are read through roots, as handles are in the code; the caller that allocates with a class outside of any root is not modelled.
- SnapshotReading.SnapshotReader.ReadObject: memory for objects comes from an arbitrary allocator that returns unused addresses; a collection while a snapshot is read, and malformed snapshots, are not modelled.
- SnapshotWriting.SnapshotWriter.RegisterObject: the places of ids in the open-addressing dictionary are not modelled, only its size and its growth.
- SnapshotRoundTrips.WriteAndRead: the payload words of objects and the tags come back as they are in fresh memory and are not compared.
- Bytecodes.AssemblerBuffer.EmitOperand: growing the assembler's buffer is not modelled.
- RegisterAllocation.ScanRegisters: fails when the window comes to an end of its array, where the code fails an assertion or reads and writes outside of the array, and one place before the upper end, where it still works unless a variable is removed; which variable is spilled follows the code and is not claimed to be the best one. Frame offsets are left out.
- LiveIntervals.ComputeRegsAlloc: stops where eight-bit indices or the tables of 256 variables would overflow.
- Dictionaries.Dictionary.Put: associations are numbers, so sharing an association with other objects is not modelled, and the comparator is equality of keys.
- ScopeAnalyses.ScopeAnalysis.AnalyzeVar: class variables, globals and capitalised names are one predicate with an uninterpreted literal index; the Smalltalk dictionary and the list of literals are not changed in the model.
- ScopeAnalyses.ScopeAnalysis.AnalyzeBlock: the arguments of all messages of an expression are one list, and positions and the wording of errors are left out; the analysis stops when a level or a context slot would overflow its byte.
- TempNumbering.ProcessVariables: stops when a number does not fit into a byte, where the code wraps around.
- The rest of vm/Compiler.c, the tokenizer and the parser, and the Smalltalk library.
