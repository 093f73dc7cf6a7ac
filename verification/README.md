# A verified model of MMgc

MMgc is the incremental, conservative garbage collector and page allocator of the Tamarin VM. This project models
four of its components, and some smaller ones around them, in Dafny and proves what each of them promises. The model
keeps the form of the source: a class in the source is a class here, with the same fields, the same loops and the
same branches; what a method is proved against, and what follows from it for whole runs, is stated over values.

`dafny verify dfyconfig.toml` checks everything.

| module | what it is |
|---|---|
| `Basics` | an option type and constants that several modules need |
| `MarkStack` | the segmented mark stack that may refuse a push |
| `TriColour` | colours, pending tails, the weakened tri-colour invariant, and what keeps it |
| `Starvation` | the exact course of marking in a heap where overflow recovery never ends |
| `Marker` | the marker, the write barrier, overflow recovery, the final phase, sweeping, and the mutator in between |
| `Probing`, `HashTable`, `GCHashtable` | triangular probing, the contents of an open-addressing table, the table itself |
| `HeapBlocks`, `FreeLists`, `HeapState` | boundary tags and tiling, the segregated free lists, the smallest steps on both |
| `HeapPages`, `HeapGrowth`, `HeapRemoval` | what pages say about blocks, growing the block array, taking a block out of it |
| `HeapRegions` | regions of reserved memory, and how the slots of the block array follow from them |
| `GCHeap` | the page-block manager: allocation, coalescing, committing, freeing, decommitting, growth, regions |
| `HeapSizing` | the loop that settles the size of an expansion together with its block table |
| `SmallBlocks`, `GCAlloc` | the blocks of a small-object allocator, and the allocator: quick list, lazy sweeping |
| `QuickLists` | the budget that all small-object allocators share, and whole collection cycles |
| `ThreadEntry` | entering and leaving the collector from any number of threads |
| `FastDivide` | division by multiplying and shifting, and the index of an item's bits |

## Main results

- A collection, with any interleaving of barriered stores, allocations, root writes and increments of marking, and
  with any push refused, frees nothing that the program can reach, changes nothing that it keeps, and frees all that
  was out of reach when marking began (`Marker.GC.Collect`). It rests on the tri-colour invariant, which every step
  outside overflow recovery keeps, and which recovery restores; and on an object being on the two stacks together
  exactly once while its bits say that it is queued, and not at all otherwise.
- The block array of the page heap stays an exact tiling with right tags, live blocks stay in place and disjoint,
  every free block is on one list, free neighbours of a kind are merged, pages not marked dirty hold zeroes, and the
  regions are just the pages of the array, over any run of allocation, freeing, decommitting, removal of regions and
  growth (`GCHeap.GCHeap.Run`). `AllocBlock` is a best fit among the committed blocks, for every alignment, and else
  takes no more than needed from a run of free pages; it fails exactly if no committed block fits, and no whole run of
  free pages around a decommitted block that it looks at suffices. Freeing undoes allocating.
- Lazy sweeping is as good as reclaiming all garbage at once, over any number of allocators and any run of
  allocations and frees (`QuickLists.GC.Cycle`); and no block is swept before it is needed, nor a new one taken while
  one is left to sweep (`GCAlloc.GCAlloc.Alloc`).
- The hashtable behaves as a finite map over any run, and its searches end (`GCHashtable.GCHashtable.Run`).
- Removing a region takes just its pages out of the block array, and slides the array, the free lists and the other
  regions' block ids correctly in all sentinel cases (`GCHeap.GCHeap.RemoveBlock`). The address of any committed page
  leads through its region to the block that the page is part of (`GCHeap.GCHeap.InteriorAddrToBlock`).
- At most one thread is ever inside the collector (`ThreadEntry.MutualExclusion`). A thread that finds the lock free
  gets in, one inside nests its entries without waiting, and as many leaves free the lock again, whatever other threads
  do meanwhile (`ThreadEntry.EntersFree`, `ThreadEntry.EntersAgain`, `ThreadEntry.LeavesFree`).

## Findings

Where the code does less than one would expect, the model says exactly when.

- The second recovery loop of `FinishIncrementalMark` (MMgc/GC.cpp:3020-3025) comes to an end, within two rounds more
  than there are objects, if the tails of the large stack-memory roots and of the native stack leave room for one more
  word in one segment of the mark stack (`Marker.GC.FinishIncrementalMark`, `Marker.GC.Collect`). If they do not, and
  no second segment can be had, then there is a heap for which it never ends: if the tails exceed the segment, any
  heap, since every round drops a tail again; and if they fill it to the last word, a heap in which the only pointer to
  a large object is in the last of these ranges, since every round refuses the object again (`Marker.StarvingHeap`; a
  small one would be marked without a push, MMgc/GC.cpp:2738-2750). So with one segment it ends for every heap exactly
  if `StackWords(scanStack) + 1 <= segmentWords`. With 64-bit words and blocks of 4096 bytes a segment has 510 words,
  which 85 large roots fill with their protectors and tails.
- The load-factor rule of `put` keeps a slot free exactly if the table has at least four slots
  (`HashTable.LoadFactorKeepsRoom`). A table made for one or two entries fills up, and the next search for an absent
  key does not end (`GCHashtable.SmallTableFillsUp`). Storing NULL as a key, which nothing prevents, leaves the counters
  wrong (`GCHashtable.GCHashtable.put`, `HashTable.NullKeyMiscounts`), and `count` is 4 for the placeholder
  (`GCHashtable.GCHashtable.CountIsSize`).
- Masking leaves no slot out if and only if the capacity is a power of two (`HashTable.MaskReachesAll`), which the
  constructor does not see to. With any other capacity no probe for any key ever looks at the slot that has the number
  of the capacity's lowest bit (`HashTable.NeverReached`); with six slots it is just four that are ever looked at
  (`HashTable.SixSlotsHideTwo`).
- `m_totalAllocatedBytes` also counts allocations that failed: it is the item size times the count of `GetAllocStats`
  exactly if none did (`GCAlloc.GCAlloc.GetAllocStats`).
- The budget test in `FillQuickList` never fires (`GCAlloc.GCAlloc.FillQuickList`).
- `ObtainQuickListBudget` ends, within one turn over its victims, if the request is below what remains when all victims
  keep one block's worth and the bibop allocators, which are no victims, keep what they have; if it is not below that,
  enough never remains (`QuickLists.GC.ObtainQuickListBudget`, `QuickLists.GC.ObtainInVain`). So it is not enough that
  the total budget is a block's worth or more, as the comment at MMgc/GC.cpp:954-956 has it: from the start, just by
  allocating items of one bibop allocator and freeing them again, the collector gets to a free that does not end
  (`QuickLists.StallingFree`, `QuickLists.GC.FreeInVain`). With the constants of the source there are 278 blocks' worth
  at first (`QuickLists.GC.constructor`); each extension of a bibop budget takes one until the end of the collection,
  when the bibop allocators return theirs like all others (`QuickLists.GC.SweepAll`). All steps of a run before the
  first such free are done, and there is none if the quick lists cannot grow too long, by frees that no allocations make
  up for (`QuickLists.GC.Run`); allocating and freeing in turn never needs more than one block's worth
  (`QuickLists.PeakInTurn`).
- `AddToFreeList` looks at the dirty mark of the wrong block after rebinding `block` (MMgc/GCHeap.cpp:1773-1774), and
  so may lose a mark. It never loses one that matters, for any alignment: a block freed in front of an aligned
  allocation is either clean or has no committed free predecessor (`GCHeap.GCHeap.SlopSafe`).
- `AllocBlock` may fail although a run of free pages is large enough, if all decommitted blocks of the run are smaller
  than the request and in lists before the one at which the search starts (`GCHeap.GCHeap.WhenMissed`), such as what
  pruning leaves behind; the invariant allows such a heap (`GCHeap.GCHeap.RunMissed`).
- `Decommit` never splits anything off in front of a region that it gives back, since the region of a block does not
  start behind the block (MMgc/GCHeap.cpp:812-817). Without virtual memory it does not count what it gives back, so
  that it gives back every region that is free as a whole, however little is wanted (`GCHeap.GCHeap.Decommit`).
- What is left of an expansion of the heap, after a block table and a page for regions have been carved out of it, if
  they are needed, is at least what was asked for exactly if that left a gap for them when it was rounded up to a
  multiple of 32 pages: for nothing if the size was adjusted for a new table, for the page of regions if the old table
  is kept, and for the table as well in the first expansion, which is not adjusted (`HeapSizing.LeftSuffices`). So an
  expansion that keeps the table is one page short exactly if the page is needed and the request is a multiple of 32
  pages (`HeapSizing.KeptSuffices`, `HeapSizing.OnePageShort`), and the first one is short for every multiple of 32
  pages, such as the 512 of the default (`HeapSizing.FirstFallsShort`).
- The comment on shrinking a hashtable speaks of one tenth (MMgc/GCHashtable-inlines.h:230), the code shrinks below one
  fifth; the model follows the code (`HashTable.RoomAfterRehash`).
- `ThreadEnter` with `tryEnter` fails for a thread that is inside already (`ThreadEntry.OwnerCannotTry`).

## Model

| member | source | states |
|---|---|---|
| MarkStack.GCMarkStack.constructor | MMgc/GCStack.cpp:12-33 | a new stack is empty |
| MarkStack.GCMarkStack.Push | MMgc/GCStack-inlines.h:73-89 | an accepted item is on top, a refused one changes nothing; a push is refused only if a whole segment's worth is in use, and one segment is never exceeded without a second |
| MarkStack.GCMarkStack.PushSegment | MMgc/GCStack.cpp:253-271 | a new top segment within the allowance, or nothing changes; the items stay |
| MarkStack.GCMarkStack.Pop | MMgc/GCStack-inlines.h:91-102 | the item pushed last is removed, across segment boundaries |
| MarkStack.GCMarkStack.IsEmpty | MMgc/GCStack-inlines.h:49-54 | the test of the top segment alone tells whether any segment has an item |
| MarkStack.GCMarkStack.Clear | MMgc/GCStack.cpp:199-212 | no item is left |
| MarkStack.GCMarkStack.TransferOneInactiveSegmentFrom | MMgc/GCStack.cpp:332-369 | a full segment moves to the bottom: no item of either stack is lost or doubled; nothing moves only if the allowance is used up |
| MarkStack.GCMarkStack.TransferEverythingFrom | MMgc/GCStack.cpp:374-433 | all items move below those that are there, or none does |
| MarkStack.GCMarkStack.TransferSomethingFrom | MMgc/GCStack.cpp:446-463 | one object moves, if there is one and room for it; an empty stack always has room |
| TriColour.TriKept | MMgc/GC.cpp:2535-2579 | a step that turns nothing white and drops no tail keeps the invariant, but for the objects that it blackens |
| TriColour.RangeWithTail | MMgc/GC.cpp:2357-2394 | a range scanned up to a pending tail counts as scanned to its end |
| TriColour.TracesGrey | MMgc/GC.cpp:2822-2856 | queueing a white object keeps marks and tails, and makes the remaining work smaller |
| TriColour.TracesRefused | MMgc/GC.cpp:2267-2272 | when a push is refused, the stack holds objects or is full of other items, so that recovery can make progress |
| TriColour.ScansMarked | MMgc/GC.cpp:2612-2616 | marking an object takes it out of the unmarked ones and whitens nothing |
| TriColour.ObjectDone | MMgc/GC.cpp:2535-2579 | popping, marking and tracing an object restores the invariant, and strictly less work or fewer unmarked objects remain |
| TriColour.ChunkDone | MMgc/GC.cpp:2597-2652 | popping a tail and scanning it, perhaps leaving a shorter tail, keeps all that the tail covered covered |
| TriColour.ScansKeepInv | MMgc/GC.cpp:2119-2170 | scanning a root or the stack keeps the invariant, and the progress of a recovery pass if there is room for its tail |
| TriColour.ObjectRescanned | MMgc/GC.cpp:2212-2253 | a marked object that is traced again need no longer be excepted from the invariant |
| TriColour.WorkMoved | MMgc/GC.cpp:3084-3113 | moving barrier work keeps the invariant, and an overflow met on the way still leaves something to mark |
| TriColour.StoreKeepsInv | MMgc/WriteBarrier-inlines.h:149-159 | any store into a container that is not black keeps the invariant, as does storing NULL |
| TriColour.GreyedKeepsInv | MMgc/GC-inlines.h:598-607 | taking the mark away and queueing the container keeps the invariant |
| TriColour.NewObjectKeepsInv | MMgc/GC.cpp:804-879 | an object allocated white during marking keeps the invariant |
| TriColour.NewObjectWellFormed | MMgc/GC.cpp:804-879 | graph, queue and items stay well formed with the new object, which has neither bit and is on no stack |
| TriColour.AfterStep | MMgc/WriteBarrier-inlines.h:149-159 | what one more step of the program does: a store changes one word of one object, a root write one word of one root, an allocation adds one object with as many words, all zero, as wanted, and nothing else changes |
| TriColour.WordKept | MMgc/WriteBarrier-inlines.h:149-159 | whatever a program stores elsewhere, allocates and marks, a word stays as it was |
| TriColour.ReadsLastStored | MMgc/WriteBarrier-inlines.h:149-159 | so a program reads what it stored there last |
| TriColour.OtherRootsKeepInv | MMgc/GC.cpp:2992-3019 | roots and stack may change without a barrier as long as they are scanned last |
| TriColour.UnreachableSealed | MMgc/GC.cpp:1206-1363 | what the program cannot reach is pointed to by nothing else |
| TriColour.PathBlack | MMgc/GC.cpp:2964-3048 | with all roots scanned and no work left, every path of pointers from a root leads through marked objects only |
| TriColour.MarkingSound | MMgc/GC.cpp:2964-3048 | then every reachable object is marked and not queued |
| TriColour.SweepWellFormed | MMgc/GC.cpp:1206-1363 | sweeping unmarked objects leaves no dangling pointer behind |
| TriColour.StackWordsKept | MMgc/GC.cpp:2884-2962 | what the tails of the stack roots take on the mark stack is the same after any run of the program |
| Starvation.PopDoomed | MMgc/GC.cpp:2357-2394 | a range that fills the stack to the last word when it is split gets the large object refused that it points to, and nothing that remains leads there |
| Starvation.WholeRoots | MMgc/GC.cpp:2119-2170 | large roots, each with a protector and a tail, fill the segment exactly, and then the large object that the last one points to is refused |
| Starvation.FilledIsStuck | MMgc/GC.cpp:3020-3025 | if the tails fill the segment exactly and only the last range points to an object, a large one, a round ends with the overflow on record and nothing marked, whatever the order in which the stack fills |
| Marker.GC.constructor | MMgc/GC.cpp:99-188 | a new collector has no objects, no work, and is not marking |
| Marker.GC.Push_GCObject | MMgc/GC.cpp:566-573 | the object is on the stack, exactly once, or has lost its queued bit and the overflow is on record |
| Marker.GC.SignalMarkStackOverflow_GCObject | MMgc/GC.cpp:2267-2272 | the refused object is white again, on no stack, and the overflow is on record |
| Marker.GC.Push_NonGCObject | MMgc/GC.cpp:515-564 | a tail or a protector is pending, or the overflow is on record; no colour changes |
| Marker.GC.SignalMarkStackOverflow_NonGCObject | MMgc/GC.cpp:2274-2277 | the overflow is on record and nothing else changes |
| Marker.GC.TracePointer | MMgc/GC.cpp:2822-2856 | an object that is white goes on top of the stack, queued, or, when as many words as a segment has are in use, an overflow is recorded instead; one without pointers is marked at once; any other word changes nothing; no mark and no tail is lost |
| Marker.GC.TraceWords | MMgc/GC.cpp:2645-2651 | no word of the range points to a white object |
| Marker.GC.SplitItem_ConservativeOrNonGCObject | MMgc/GC.cpp:2357-2394 | what lies beyond the split threshold is pending as a tail, below it a protector if the item is an object |
| Marker.GC.MarkItem_ConservativeOrNonGCObject | MMgc/GC.cpp:2597-2652 | the range shows no white object, except through its pending tail; an object gets its mark |
| Marker.GC.SetMark | MMgc/GC-inlines.h:380-386 | the object is black and on no stack |
| Marker.GC.MarkItem_GCObject | MMgc/GC.cpp:2535-2579 | the object is marked and closed, whether it was marked before or not |
| Marker.GC.PopItem | MMgc/GC.cpp:2465-2524 | a popped object is queued and not marked, and on neither stack any more; a popped tail lies within its object or root |
| Marker.GC.MarkOneItem | MMgc/GC.cpp:1431-1442 | one item of work keeps the invariant and strictly decreases what is left to do |
| Marker.GC.Mark | MMgc/GC.cpp:1431-1442 | marking ends, with an empty stack and the invariant |
| Marker.GC.MarkSome | MMgc/GC.cpp:1444-1455 | marking a limited number of items keeps the invariant and, if there was any, brings marking nearer to its end |
| Marker.GC.MarkRoot | MMgc/GC.cpp:2119-2170 | a root of the wanted kind shows no white object; a large one is split, with a protector; any other root is left alone |
| Marker.GC.MarkRoots | MMgc/GC.cpp:2109-2170 | all roots of the wanted kind are scanned, exactly traced ones in either case; deep marking leaves the stack empty after each |
| Marker.GC.CheckBarrierWork | MMgc/GC.cpp:3084-3089 | below nine hidden segments nothing happens; from nine on just one segment moves, unless the mark stack owns as many as it may; it loses no item and keeps the invariant |
| Marker.GC.FlushBarrierWork | MMgc/GC.cpp:3099-3113 | the barrier stack is empty, or the overflow is on record and some object has been moved |
| Marker.GC.VisitObject | MMgc/GCAlloc-inlines.h:172-187 | a marked object is traced again, and the object need not be excepted from the invariant any more |
| Marker.GC.HandleMarkStackOverflow | MMgc/GC.cpp:2212-2253 | afterwards no marked object and no scanned root shows a white object, unless it overflowed again, and then it has marked an object |
| Marker.GC.PushStack | MMgc/GC.cpp:1515-1537 | the native stack is pending as a whole, or the overflow is on record |
| Marker.GC.MarkQueueAndStack | MMgc/GC.cpp:1498-1512 | stack roots and the native stack are scanned and marked from; without a second segment their tails must fit into one, or it overflows |
| Marker.GC.FirstRecovery | MMgc/GC.cpp:2986-2991 | the loop ends within as many rounds as there are unmarked objects, and one more |
| Marker.GC.SecondRecovery | MMgc/GC.cpp:3020-3025 | so does the second one if the tails of the stack roots leave room for a word in one segment; if there is no other, it never ends if they do not fit, nor if they fill it and the last range has the only pointer to an object, a large one |
| Marker.GC.CompleteMarking | MMgc/GC.cpp:2964-3030 | when the loops have ended, both stacks are empty, no overflow is pending and all roots are scanned; when they end, and when they do not, as for the second loop |
| Marker.GC.ReachableMarked | MMgc/GC.cpp:2964-3048 | then everything reachable from the roots and the scanned stack is marked |
| Marker.GC.Sweep | MMgc/GC.cpp:1206-1363 | just the marked objects remain, unchanged and white, and no pointer among them dangles |
| Marker.GC.FinishIncrementalMark | MMgc/GC.cpp:2964-3057 | nothing reachable is freed, what remains is unchanged, old garbage is freed; it ends for every heap if the tails leave room for a word, and never if they exceed the only segment, or fill it and the heap starves on a large object |
| Marker.GC.IncrementalMark | MMgc/GC.cpp:2884-2962 | an increment keeps the collector's invariants; if there was mark work, more objects are marked or less is left to do, on both stacks together |
| Marker.GC.StartIncrementalMark | MMgc/GC.cpp:2039-2090 | marking has begun, its invariants hold, and no root but those in stack memory shows a white object |
| Marker.GC.WriteBarrierHit | MMgc/GC.cpp:3186-3211 | the queued container is on one of the stacks, once, or both are full and it is white with the overflow on record; nothing else changes |
| Marker.GC.InlineWriteBarrierTrap | MMgc/WriteBarrier-inlines.h:128-147 | a black container is not black any more, or both stacks are full and the overflow is on record; if it is not black nothing happens |
| Marker.GC.WriteBarrier | MMgc/WriteBarrier-inlines.h:149-159 | the value, an object's address or any word that is none, is in that word of that object, and no other word of any object changes; the trap is taken just while marking, and for NULL only where it is not tested for; the invariants are kept |
| Marker.GC.Alloc | MMgc/GC.cpp:804-879 | the heap has one more object, white and zeroed, of the wanted number of words; no other object, colour or item changes, and the invariants are kept |
| Marker.GC.Run | MMgc/GC.cpp:2884-2962 | every interleaving of stores, allocations, root writes and increments keeps the invariants, and the objects are those that the program alone would have made |
| Marker.GC.Collect | MMgc/GC.cpp:2964-3057 | a whole collection keeps all that the program can reach at its end, unchanged, and frees all that it could not reach at its start; it completes if the tails of the stack roots leave room for a word in one segment, and does not if they exceed it and there is no other |
| Marker.StarvingHeap | MMgc/GC.cpp:3020-3025 | for all roots whose tails leave no word of the only segment there is a heap, made by allocating one large object and starting to mark, for which the second loop never ends |
| Probing.NextSlot | MMgc/GCHashtable-inlines.h:79-95 | adding 1, 2, 3, ... in turn visits the triangular offsets |
| Probing.SlotsDistinct | MMgc/GCHashtable-inlines.h:79-95 | for a size that is a power of two, the first that many probes visit no slot twice |
| Probing.AllSlotsVisited | MMgc/GCHashtable-inlines.h:79-95 | and they visit every slot |
| HashTable.SameMap | MMgc/GCHashtable.h:41-52 | a table stands for one map only |
| HashTable.SearchEnds | MMgc/GCHashtable-inlines.h:72-96 | a search that ends elsewhere than at its key has shown that the key is absent |
| HashTable.SearchEndsIffFreeSlot | MMgc/GCHashtable-inlines.h:72-96 | the search for an absent key ends if and only if some slot is free |
| HashTable.ArrivedAt | MMgc/GCHashtable-inlines.h:72-96 | where a search arrives tells whether the key is in the map, and its value, which is 0 for absent keys |
| HashTable.SlotFilled | MMgc/GCHashtable-inlines.h:144-170 | a new key on its probe path, also in place of a tombstone, makes no duplicate and hides no other key |
| HashTable.SlotDeleted | MMgc/GCHashtable-inlines.h:174-195 | a tombstone hides no other key |
| HashTable.NewKeyStored | MMgc/GCHashtable-inlines.h:144-170 | the map gains the key, and the counts of used slots and tombstones stay right |
| HashTable.ValueStored | MMgc/GCHashtable-inlines.h:144-170 | the map changes at the key only |
| HashTable.KeyDeleted | MMgc/GCHashtable-inlines.h:174-195 | the map loses the key, and there is a tombstone more |
| HashTable.NullKeyMiscounts | MMgc/GCHashtable-inlines.h:99-171 | when the key NULL is stored as put does it, in a free slot or a tombstone's, the counters are wrong for every map |
| HashTable.MaskReachesAll | MMgc/GCHashtable-inlines.h:79-95 | masked probing leaves no slot out if and only if the capacity is a power of two |
| HashTable.NeverReached | MMgc/GCHashtable-inlines.h:79-95 | with any other capacity there is a slot that no probe reaches, whatever the hash and the steps |
| HashTable.SixSlotsHideTwo | MMgc/GCHashtable-inlines.h:79-95 | for instance, with a capacity of six masking reaches four slots only |
| HashTable.PrefixGrows | MMgc/GCHashtable-inlines.h:244-262 | copying entry after entry makes the same map, each key once |
| HashTable.RoomAfterRehash | MMgc/GCHashtable-inlines.h:223-262 | the size chosen when growing or shrinking leaves a slot free, and two if there were four slots |
| HashTable.NewTableSizeIsPow2 | MMgc/GCHashtable-inlines.h:223-240 | it is a power of two |
| HashTable.NewTableSizeFits | MMgc/GCHashtable-inlines.h:226-235 | the contents fill at most half of the new table; it is larger only if they fill more than a quarter of it, and smaller, by half, only if less than two fifths; a table that keeps its size is a fifth full or of the default size |
| HashTable.LoadFactorKeepsRoom | MMgc/GCHashtable-inlines.h:156-166 | the rule that makes put grow the table keeps a slot free if and only if the table has at least four |
| GCHashtable.GCHashtable.constructor | MMgc/GCHashtable-inlines.h:13-37 | a new table is empty; with capacity 0 it is the shared placeholder |
| GCHashtable.GCHashtable.clear | MMgc/GCHashtable-inlines.h:58-69 | the table is empty |
| GCHashtable.GCHashtable.find | MMgc/GCHashtable-inlines.h:72-96 | the search ends, at the first slot on the probe path that is free or has the key |
| GCHashtable.GCHashtable.Probe | MMgc/GCHashtable-inlines.h:114-144 | as find, and the slot noted is the first tombstone on the way, if there is any |
| GCHashtable.GCHashtable.put | MMgc/GCHashtable-inlines.h:99-171 | the key has the value and all other keys are as before; a key that is there keeps its slot; a new one takes the place of a tombstone exactly if its search meets one, and else makes the table grow exactly if three quarters are used; with four slots one stays free; with the key NULL the counters are wrong |
| GCHashtable.GCHashtable.remove | MMgc/GCHashtable-inlines.h:174-195 | the key is gone and its value or 0 is returned; an absent key changes nothing; the table is replaced exactly if that is allowed, less than a fifth is left, the heap is not in its abort state and memory is not refused, and then by one of half the size, if above the default; else just the slot of the key changes, to a tombstone |
| GCHashtable.GCHashtable.prune | MMgc/GCHashtable-inlines.h:198-209 | the contents stay; the table is replaced exactly if less than a fifth is used, the heap is not in its abort state and memory is not refused, by one without tombstones |
| GCHashtable.GCHashtable.Rehash | MMgc/GCHashtable-inlines.h:244-262 | the new table has the same contents, no tombstone, and right counts |
| GCHashtable.GCHashtable.grow | MMgc/GCHashtable-inlines.h:212-272 | the contents stay, in a table of the size that the rule wants, or the table is as before if a removal is refused the memory |
| GCHashtable.GCHashtable.get | MMgc/GCHashtable.h:41-41 | the value of the key, and 0 if it is absent |
| GCHashtable.GCHashtable.CountIsSize | MMgc/GCHashtable.h:48-48 | count is the number of keys if and only if the table is not the placeholder |
| GCHashtable.GCHashtable.FullTableNeverAnswers | MMgc/GCHashtable-inlines.h:72-96 | in a full table the search for an absent key meets no end |
| GCHashtable.GCHashtable.Run | MMgc/GCHashtable-inlines.h:58-272 | any run of put, remove, prune and clear, with any memory refused to removals, does to the table what it does to a map |
| GCHashtable.SmallTableFillsUp | MMgc/GCHashtable-inlines.h:156-166 | a table made for two entries is full after two puts, and the search for a third key does not end |
| HeapBlocks.SplitTiles | MMgc/GCHeap.cpp:1596-1610 | after a split, the blocks still tile the array |
| HeapBlocks.SplitTags | MMgc/GCHeap.cpp:1596-1610 | and all boundary tags are right |
| HeapBlocks.MergeTiles | MMgc/GCHeap.cpp:1755-1798 | after a merge with the successor, the blocks still tile the array, and the slots of the absorbed one are clear |
| HeapBlocks.MergeTags | MMgc/GCHeap.cpp:1755-1798 | all boundary tags are right, but for the one behind |
| HeapBlocks.TagFixed | MMgc/GCHeap.cpp:1800-1801 | then that one is right as well |
| HeapBlocks.AddressInBlock | MMgc/GCHeap.cpp:1241-1263 | the pages of a block are adjacent in memory |
| FreeLists.IndexMonotone | MMgc/GCHeap-inlines.h:377-386 | larger blocks are in later lists, of which there are 30, and the first lists have one size each |
| FreeLists.RemovedFromLists | MMgc/GCHeap-inlines.h:369-375 | unlinking a block leaves every other free block in just its list, in order |
| FreeLists.InsertedInLists | MMgc/GCHeap.cpp:1739-1749 | inserting a block at a fitting place keeps the lists in order, each free block on just one |
| HeapState.UnlinkOk | MMgc/GCHeap-inlines.h:369-375 | the whole invariant survives unlinking; the block's pages, and no others, are in use |
| HeapState.SplitOk | MMgc/GCHeap.cpp:1596-1610 | and splitting |
| HeapState.MergeOk | MMgc/GCHeap.cpp:1755-1798 | and merging |
| HeapState.LinkOk | MMgc/GCHeap.cpp:1739-1749 | and linking, if no neighbour is free and of the same kind |
| HeapPages.SamePartition | MMgc/GCHeap.cpp:1751-1825 | since free neighbours of a kind are merged, the use of the pages determines all blocks: starts, sizes, tags, and state |
| HeapPages.SameRun | MMgc/GCHeap.cpp:788-893 | decommitting a block leaves all other committed free blocks alone |
| HeapGrowth.GrownOk | MMgc/GCHeap.cpp:2118-2175 | new pages behind the array, contiguous with it or not, keep the whole invariant |
| HeapRegions.PageInRegion | MMgc/GCHeap.cpp:1212-1225 | every page of the array is in a region, at the slot that the region's block id leads to |
| HeapRegions.SlotInRegion | MMgc/GCHeap.cpp:1227-1239 | a page that a region reserves has no slot but the one computed from the region's block id |
| HeapRegions.WholeRegion | MMgc/GCHeap.cpp:1059-1060 | pages that reach from the start of a region to the end of its reserve are just its pages |
| HeapRegions.LastIsLast | MMgc/GCHeap.cpp:1953-1956 | the last page of the array is the last that the last region has committed, so that its reserve continues the array |
| HeapRegions.GrowOk | MMgc/GCHeap.cpp:2213-2231 | an expansion keeps the regions and the array in step, whether the new pages are in the last region, in a new one, or in both |
| HeapRegions.ShiftedOk | MMgc/GCHeap.cpp:1144-1154 | so does the removal of a region, with all block ids behind it decremented by the slots that go, in all sentinel cases |
| HeapRemoval.RemovedTiles | MMgc/GCHeap.cpp:1055-1159 | without the block, and with a sentinel more or less, the array is still tiled |
| HeapRemoval.RemovedTags | MMgc/GCHeap.cpp:1080-1121 | and its tags are right, also where the two sides meet |
| HeapRemoval.RemovedLists | MMgc/GCHeap.cpp:1123-1142 | the free lists, with their links moved down, have the same blocks in the same order |
| HeapRemoval.BlockSlides | MMgc/GCHeap.cpp:1093-1121 | every other block keeps its address, size and flags |
| HeapRemoval.RemovedOk | MMgc/GCHeap.cpp:1055-1159 | the whole invariant holds after the slide, in all sentinel cases |
| GCHeap.SlopAligns | MMgc/GCHeap.cpp:1283-1286 | the slop is less than the alignment and leads to a multiple of it |
| GCHeap.SlopFurther | MMgc/GCHeap.cpp:1283-1286 | after skipping some pages of the slop, just the rest of it remains |
| GCHeap.SlopEarlier | MMgc/GCHeap.cpp:1283-1286 | starting earlier by some pages makes the slop longer by no more than these |
| HeapPages.RunAround | MMgc/GCHeap.cpp:1415-1436 | free pages are part of a run that nothing can be added to |
| HeapPages.RunAddress | MMgc/GCHeap.cpp:1415-1436 | the pages of a run are adjacent in memory |
| GCHeap.PartSuffices | MMgc/GCHeap.cpp:1409-1441 | if some of the free pages around a block suffice, for any alignment, the whole run does |
| GCHeap.GCHeap.constructor | MMgc/GCHeap.cpp:354-434 | an empty heap without regions satisfies the invariant |
| GCHeap.GCHeap.RemoveFromList | MMgc/GCHeap-inlines.h:369-375 | the block is off its list, its pages in use, and all else is as it was |
| GCHeap.GCHeap.Split | MMgc/GCHeap.cpp:1596-1610 | the block has the wanted size, the rest of it is a block of its own with right tags, and both are clean if the whole was |
| GCHeap.GCHeap.CoalescePrevious | MMgc/GCHeap.cpp:1755-1776 | a free predecessor of the same kind is merged, and no dirty mark that matters is lost |
| GCHeap.GCHeap.CoalesceNext | MMgc/GCHeap.cpp:1778-1798 | so is a free successor; then no neighbour is free and alike |
| GCHeap.GCHeap.PointToInsert | MMgc/GCHeap.cpp:1805-1824 | the place found keeps the list in order of size |
| GCHeap.GCHeap.AddToFreeList | MMgc/GCHeap.cpp:1751-1825 | just the pages of the block become free, merged with free neighbours of their kind, and blocks in use stay as they are |
| GCHeap.GCHeap.FreeBlock | MMgc/GCHeap.cpp:1827-1838 | just the pages of the block become free |
| GCHeap.GCHeap.AllocCommittedBlock | MMgc/GCHeap.cpp:1457-1496 | an aligned piece of the wanted size is in use, the rest of the block is free again; zeroing is saved only if the pages hold zeroes |
| GCHeap.GCHeap.Commit | MMgc/GCHeap.cpp:1612-1627 | the block is committed and counts as clean |
| GCHeap.GCHeap.PruneDecommittedBlock | MMgc/GCHeap.cpp:1581-1594 | no more than needed, or than the minimum worth committing, stays in the block; the rest stays free and decommitted |
| GCHeap.GCHeap.TakeNext | MMgc/GCHeap.cpp:1526-1551 | the next free block, or as much of it as is needed, becomes part of the block, and its contents are known to be zero or marked dirty |
| GCHeap.GCHeap.TakeAll | MMgc/GCHeap.cpp:1517-1560 | the loop ends with a block of at least the wanted size, and no more than needed, committed, and clean or marked dirty |
| GCHeap.GCHeap.CreateCommittedBlock | MMgc/GCHeap.cpp:1501-1572 | given free pages enough, and no block that is committed and large enough by itself, one committed block large enough results from free pages only; behind the request it has pages only of the free block in which the request ends, and if that one was decommitted, none, or in all no more than the minimum worth committing |
| GCHeap.GCHeap.LookBack | MMgc/GCHeap.cpp:1409-1429 | the free blocks before are looked at only as far as needed, and all pages from the first on are free |
| GCHeap.GCHeap.LookAround | MMgc/GCHeap.cpp:1404-1441 | a decommitted block counts as suitable if and only if the request fits into the whole run of free pages around it |
| GCHeap.GCHeap.ScanList | MMgc/GCHeap.cpp:1393-1444 | the first committed block of a list in which the request fits is found, or there is none; a decommitted one is kept exactly if the run around some decommitted block suffices |
| GCHeap.GCHeap.FindBlock | MMgc/GCHeap.cpp:1385-1455 | what the search finds among committed blocks is the smallest that fits; it finds nothing at all if and only if no committed block fits and no whole run of free pages around a decommitted block of the lists searched suffices |
| GCHeap.GCHeap.NothingFits | MMgc/GCHeap.cpp:1385-1455 | then no free block fits by itself either |
| GCHeap.GCHeap.WhenMissed | MMgc/GCHeap.cpp:1385-1441 | if a run of free pages is large enough and the request is not met, then all decommitted blocks of the run are smaller than the request and in lists before those searched |
| GCHeap.GCHeap.RunMissed | MMgc/GCHeap.cpp:1385-1393 | a heap in which two adjacent pages are free, but a request for two pages cannot be met |
| GCHeap.GCHeap.AllocFound | MMgc/GCHeap.cpp:1401-1404 | the request is met from the committed block found, and from it alone |
| GCHeap.GCHeap.SuitableIs | MMgc/GCHeap.cpp:1446-1452 | the first block handed to CreateCommittedBlock is never committed and large enough by itself |
| GCHeap.GCHeap.AllocSuitable | MMgc/GCHeap.cpp:1446-1452 | from a suitable run of free blocks comes an aligned block, zero where promised; what was taken beyond the request, and no more than had to be, is free and committed |
| GCHeap.GCHeap.SlopSafe | MMgc/GCHeap.cpp:1755-1776 | the slop of an allocation that had to commit memory has no committed free predecessor, so that its dirty mark survives being freed |
| GCHeap.GCHeap.AllocBlock | MMgc/GCHeap.cpp:1385-1455 | free pages, and no others, become an aligned block; best fit among committed blocks, and else no more than needed of a run; it fails if and only if no committed block fits and no run around a decommitted block of the lists searched suffices, and that changes nothing; pages promised to be zero are zero |
| GCHeap.GCHeap.BackOfTheBus | MMgc/GCHeap.cpp:881-890 | the place found is behind all committed blocks, in order of size |
| GCHeap.GCHeap.DecommitVirtual | MMgc/GCHeap.cpp:796-893 | with virtual memory, just the wanted pages of the block are decommitted, and merged with decommitted neighbours, unless a region goes with them |
| GCHeap.GCHeap.Decommit | MMgc/GCHeap.cpp:764-912 | the loop with its restarts ends; the largest blocks go first; with virtual memory just as many free committed pages are given back as wanted, or all there are, some of them with their regions if that is wanted, and else they are decommitted and nothing else changes; without, no region remains that is free as a whole, if anything is wanted; blocks in use stay where they are in memory |
| GCHeap.GCHeap.LastIsLargest | MMgc/GCHeap.cpp:766-784 | the last block of the last list that has one that can go is the largest that can |
| GCHeap.GCHeap.LiveDisjoint | MMgc/GCHeap.cpp:1161-1210 | blocks in use overlap neither in the array nor in memory |
| GCHeap.GCHeap.AddrToRegion | MMgc/GCHeap.cpp:1212-1225 | the one region that reserves the page, or none if none does |
| GCHeap.GCHeap.BaseAddrToBlock | MMgc/GCHeap.cpp:1227-1239 | the slot with the page, and the block if it is its first page |
| GCHeap.GCHeap.InteriorAddrToBlock | MMgc/GCHeap.cpp:1241-1263 | the address of any page of a block leads to just that block, through the region and back over the slots inside the block; there is none if no region reserves the page |
| GCHeap.GCHeap.Allocate | MMgc/GCHeap.cpp:1385-1455 | in any reachable heap an allocation leaves all live blocks alone, and is none of them |
| GCHeap.GCHeap.Deallocate | MMgc/GCHeap.cpp:1827-1838 | any live block can be freed, which leaves all others alone |
| GCHeap.GCHeap.Expand | MMgc/GCHeap.cpp:1935-2231 | the array grows by just the new pages, of which the first are a block for the table, then one for regions, each if needed, and the others are free; all blocks stay; the regions grow by what was reserved, and reserved pages of the last one always continue the array |
| GCHeap.GCHeap.AllocateThenFree | MMgc/GCHeap.cpp:1385-1480 | without decommitted pages, allocating and freeing at once restores the same partition into blocks, whatever the neighbours are |
| GCHeap.GCHeap.Run | MMgc/GCHeap.cpp:788-2240 | over any run of allocations, frees, decommits, removals of regions, growth and writes by clients, the heap satisfies its invariant, each step has its effect, and live blocks stay in place in memory, wherever their slots are |
| GCHeap.GCHeap.SlideRegions | MMgc/GCHeap.cpp:1144-1154 | just the region is gone, and just the block ids of those behind it are smaller, by the number of slots that went |
| GCHeap.GCHeap.SlideDown | MMgc/GCHeap.cpp:1066-1142 | just the slots of the block go, with one more or less at a sentinel; all other blocks and the free lists are as before, in their new places |
| GCHeap.GCHeap.RemoveBlock | MMgc/GCHeap.cpp:1055-1159 | the block is gone with its region, and none of its pages is in the array any more; the array is shorter by exactly its slots, give or take a sentinel; all other blocks, the free lists and the other regions are as before, in their new places |
| GCHeap.GCHeap.DecommitOrRelease | MMgc/GCHeap.cpp:788-912 | the body of the loop: a region goes back to the system if and only if all of it is to be decommitted and that is wanted, else just the wanted pages are decommitted; blocks in use stay where they are in memory; how much remains to be decommitted |
| HeapSizing.Settle | MMgc/GCHeap.cpp:1901-1931 | the loop ends for every request, with the smallest table that is large enough for the blocks it makes; when it is skipped, when the old table is kept, and when the size is adjusted |
| HeapSizing.NeverSettles | MMgc/GCHeap.cpp:1901-1931 | it would not if an entry took a page |
| HeapSizing.TablePages | MMgc/GCHeap-inlines.h:398-404 | the pages of a table are just enough for its entries |
| HeapSizing.TableMonotone | MMgc/GCHeap-inlines.h:398-404 | more entries take no fewer pages |
| HeapSizing.NextTable | MMgc/GCHeap.cpp:1914-1927 | a round of the loop never skips a table that would do |
| HeapSizing.LeftSuffices | MMgc/GCHeap.cpp:2150-2175 | what is left after the table and a page of regions is enough if and only if rounding up the request left a gap for what the size was not adjusted for, in each of the three cases, and how much it is otherwise |
| HeapSizing.KeptSuffices | MMgc/GCHeap.cpp:2150-2175 | if the old table is kept, it is enough unless the page is needed and the request is a multiple of 32; then it is one page short |
| HeapSizing.FirstFallsShort | MMgc/GCHeap.cpp:1908-1909 | the first expansion is short for every multiple of 32 pages, and for every large request |
| HeapSizing.OnePageShort | MMgc/GCHeap.cpp:2166-2175 | a request for 32 pages that keeps the table and gets 31 |
| SmallBlocks.PopOk | MMgc/GCAlloc.cpp:412-460 | an item from the quick list becomes allocated; no other item changes |
| SmallBlocks.PushQuickOk | MMgc/GCAlloc.cpp:604-626 | an item put on the quick list is free, and on no other list |
| SmallBlocks.PushFreeOk | MMgc/GCAlloc.cpp:628-664 | an item of a block to be swept is free on that block's list |
| SmallBlocks.FillOk | MMgc/GCAlloc.cpp:527-545 | moving a free list to the quick list changes no item |
| SmallBlocks.CoalesceOk | MMgc/GCAlloc.cpp:698-731 | nor does moving an item back |
| SmallBlocks.SweepOk | MMgc/GCAlloc.cpp:945-1011 | sweeping a block changes no live item, and turns just its garbage into free items |
| SmallBlocks.DropOk | MMgc/GCAlloc.cpp:314-362 | giving back a block takes its items, and none else |
| SmallBlocks.CreateOk | MMgc/GCAlloc.cpp:189-312 | the items of a new block are free |
| SmallBlocks.CondemnOk | MMgc/GCAlloc-inlines.h:84-95 | putting a block on the sweep list turns just its unmarked items into garbage |
| SmallBlocks.RemarkOk | MMgc/GCAlloc.cpp:1024-1047 | changing marks, but not which items look free, changes no live item |
| SmallBlocks.InUseIsOccupied | MMgc/GCAlloc.cpp:1220-1232 | the sum over the blocks, less the quick list, is the number of items that are allocated or not yet swept |
| GCAlloc.GCAlloc.constructor | MMgc/GCAlloc.cpp:127-168 | nothing is allocated and the quick list is empty |
| GCAlloc.GCAlloc.GetAllocStats | MMgc/GCAlloc.cpp:1220-1232 | the number of items allocated or not yet swept; the byte count agrees with it exactly if no allocation has failed |
| GCAlloc.GCAlloc.AllocFromQuickList | MMgc/GCAlloc.cpp:412-460 | the first item of the quick list, free before, is allocated now; no other item changes |
| GCAlloc.GCAlloc.FillQuickList | MMgc/GCAlloc.cpp:527-545 | the quick list is filled, and its budget is never exceeded by that |
| GCAlloc.GCAlloc.CreateChunk | MMgc/GCAlloc.cpp:189-312 | one new block of free items, unless refused |
| GCAlloc.GCAlloc.Refill | MMgc/GCAlloc.cpp:463-525 | the quick list is filled unless the heap refuses; a new block is taken only if no block is left to sweep; blocks are swept in order, none after the first one that yields free items, and none at all if some block has free items; nothing live is lost |
| GCAlloc.GCAlloc.Alloc | MMgc/GCAlloc.cpp:365-409 | an item that was not allocated is, and all others are as before; failure means that the heap refused and nothing was left to sweep; a new block is taken only then, and no more blocks are swept than it takes |
| GCAlloc.GCAlloc.Free | MMgc/GCAlloc.cpp:548-626 | the item is not allocated any more and all others are as before, unless the marker has it queued; whether the budget is exhausted |
| GCAlloc.GCAlloc.FreeSlow | MMgc/GCAlloc.cpp:628-664 | the same for a block that is to be swept |
| GCAlloc.GCAlloc.CoalesceQuickList | MMgc/GCAlloc.cpp:698-745 | the quick list is empty, the allocator keeps one block's worth of budget and returns just the rest, nothing live is lost, and just the blocks go of which all items are free |
| GCAlloc.GCAlloc.SweepGuts | MMgc/GCAlloc.cpp:945-971 | marked and queued items stay and lose their bits, unmarked ones are on the free list |
| GCAlloc.GCAlloc.Sweep | MMgc/GCAlloc.cpp:990-1011 | what is live stays so; the block is off the sweep list, without marks, and on the free list just if it yields free items; it is given back if and only if nothing in it is live |
| GCAlloc.GCAlloc.SweepNeedsSweeping | MMgc/GCAlloc.cpp:1013-1022 | when all pending blocks are swept, what was live is, and every item is free or has no mark |
| GCAlloc.GCAlloc.CountMarks | MMgc/GCAlloc.cpp:796-860 | the count is zero exactly if no item is marked, and full exactly if all are that are not free |
| GCAlloc.GCAlloc.FinalizationPass | MMgc/GCAlloc.cpp:774-882 | just what is live and marked stays live; a block goes just if it has no mark, and is to be swept just if not all of it is marked; blocks that are not to be swept have no mark |
| GCAlloc.GCAlloc.LazySweepPass | MMgc/GCAlloc.cpp:888-941 | the same, with all remaining blocks to be swept |
| GCAlloc.GCAlloc.Finalize | MMgc/GCAlloc.cpp:765-772 | the items that are live and marked are the live ones from now on |
| GCAlloc.GCAlloc.ClearMarks | MMgc/GCAlloc.cpp:1024-1047 | no mark is left and just the free items look free |
| GCAlloc.GCAlloc.SetBits | MMgc/GCAlloc-inlines.h:33-39 | the marker's writes to an item's bits change no other item and nothing of what is allocated |
| GCAlloc.GCAlloc.GrantBudget | MMgc/GCAlloc.cpp:747-752 | the budget is larger by one block's worth |
| QuickLists.GC.NeverEnough | MMgc/GC.cpp:958-979 | if a request is not below what there is to spare, no flushing makes enough remain |
| QuickLists.GC.AllAtLeast | MMgc/GC.cpp:958-979 | when all victims keep one block's worth, just what there is to spare remains |
| QuickLists.GC.Bounded | MMgc/GCAlloc.cpp:698-752 | the bytes on all quick lists together stay below the total budget |
| QuickLists.GC.CoalesceVictim | MMgc/GC.cpp:958-984 | the victim keeps one block's worth, no budget is lost, and the next victim is next in turn |
| QuickLists.GC.ObtainQuickListBudget | MMgc/GC.cpp:958-979 | if there is enough to spare, it is obtained within one turn, in which victims are flushed in order, and no more of them than it takes; no budget and nothing live is lost, and all other allocators are left alone |
| QuickLists.GC.QuickListBudgetExhausted | MMgc/GCAlloc.cpp:747-752 | every allocator is within its budget again, and nothing is lost |
| QuickLists.GC.Alloc | MMgc/GCAlloc.cpp:365-409 | allocation keeps the budget's balance |
| QuickLists.GC.Free | MMgc/GCAlloc.cpp:548-626 | freeing, which may flush other allocators, changes just the item freed, and keeps the balance; it ends unless it exhausts the budget and there is not enough to spare |
| QuickLists.GC.Run | MMgc/GCAlloc.cpp:365-752 | in any run over all allocators, up to the first free that does not end, each allocation hands out an item that is not allocated, takes a new block only if its allocator has none left to sweep, and fails only if the heap refuses; each free frees what is allocated; sweeping and flushing are invisible; every free ends if the quick lists cannot grow too long |
| QuickLists.GC.FinalizeAll | MMgc/GC.cpp:1057-1083 | the items that are allocated and marked are the allocated ones from now on |
| QuickLists.GC.SweepAll | MMgc/GC.cpp:1085-1113 | nothing allocated is lost, no allocator has a block to sweep, every item is free or has no mark, and every allocator, bibop ones included, is back at one block's worth of budget |
| QuickLists.GC.Cycle | MMgc/GC.cpp:1057-1113 | from the end of one collection to the start of the next, the allocated items are those marked, plus allocations, less frees; then no mark is left and the budget is as at first; unless a free does not end |
| QuickLists.GC.InitiallyToSpare | MMgc/GC.cpp:226-226 | with the constants of the source, at least 278 blocks' worth can be obtained |
| QuickLists.GC.constructor | MMgc/GC.cpp:226-258 | each allocator has obtained one block's worth, the budget balances, nothing is allocated, and at least 278 blocks' worth can be obtained |
| QuickLists.PeakInTurn | MMgc/GCAlloc.cpp:527-626 | allocations and frees in turn never make a quick list longer than one block's worth |
| QuickLists.GC.ObtainInVain | MMgc/GC.cpp:958-979 | when there is not enough to spare, another round is due after any number of them |
| QuickLists.GC.FreeInVain | MMgc/GCAlloc.cpp:548-626 | a free that exhausts the budget then does not end |
| QuickLists.StallingFree | MMgc/GC.cpp:954-979 | from the start, allocating items of a bibop allocator and freeing them leads to such a free |
| ThreadEntry.OwnerActs | MMgc/GC.cpp:3783-3829 | what each step of the thread inside does to lock, owner and count, and that the lock is released just when the count is zero |
| ThreadEntry.OtherActs | MMgc/GC.cpp:3783-3829 | a step of any other thread changes nothing of them, unless it gets the lock |
| ThreadEntry.InvHolds | MMgc/GC.cpp:3783-3829 | every step of every thread keeps the invariant |
| ThreadEntry.RunKeepsInv | MMgc/GC.cpp:3783-3829 | so does every run |
| ThreadEntry.MutualExclusion | MMgc/GC.cpp:3783-3829 | at most one thread is inside, enterCount is its depth, and the lock is held just as long as a thread is inside |
| ThreadEntry.UnlockedReadIsSafe | MMgc/GC.cpp:3783-3803 | although m_gcThread is read without the lock, the comparison tells a thread whether it is inside |
| ThreadEntry.OwnerCannotTry | MMgc/GC.cpp:3783-3803 | a thread inside that tries to enter once more fails |
| ThreadEntry.AsIfAlone | MMgc/GC.cpp:3783-3829 | while a thread is inside, its steps do to it, the owner and the count what they would do if there were no other thread |
| ThreadEntry.GetsIn | MMgc/GC.cpp:3783-3803 | a thread that tests for the lock, trying or not, or waits for it, and finds it free, is inside with its next steps, as owner and with a count of one, whatever others do |
| ThreadEntry.EntersFree | MMgc/GC.cpp:3783-3803 | so is one that starts to enter while the lock is free and is the first to test for it |
| ThreadEntry.EntersAgain | MMgc/GC.cpp:3783-3803 | a thread inside that enters any number of times more is deeper by that number, and never waits |
| ThreadEntry.LeavesFree | MMgc/GC.cpp:3805-3829 | as many leaves as enters, and the lock is free, without owner |
| ThreadEntry.NotAdmitted | MMgc/GC.cpp:3783-3803 | a thread that finds another one inside fails if it only tried, and else waits, and changes nothing for anyone |
| FastDivide.ComputeMultiplyShift | MMgc/GCAlloc.cpp:1128-1139 | the loop ends, with the last multiplier below 2^13 |
| FastDivide.DivisionIsExact | MMgc/GCAlloc-inlines.h:115-123 | for every offset below 4096, multiplying by it and shifting is division by the item size |
| FastDivide.GetObjectIndex | MMgc/GCAlloc-inlines.h:115-123 | both together: the index is the offset divided by the item size |
| FastDivide.Log2 | MMgc/GCAlloc.cpp:111-119 | the shift is the logarithm, rounded down |
| FastDivide.BitsIndexIsUnique | MMgc/GCAlloc.h:230-250 | different items of a block have different bits, all within the table, for every item size |

## Left out

Marker:
- Marker.GC.TracePointer: a word is the address of an object or of none; interior and tagged pointers and FindBeginningGuarded are not modelled. A small object that is found conservatively is queued like any other, whereas TraceConservativePointer marks it at once, by recursion, up to a depth of 20.
- Marker.GC.WriteBarrier: a word is NULL, an object's address, or not a multiple of eight; a word that looks like the aligned address of an object that does not exist yet cannot be stored into an object, though it may be in roots and on the stack.
- Marker.GC.WriteBarrierHit: the branch for a barrier that is hit while collecting is not modelled, since presweep callbacks are not.
- Marker.GC.MarkItem_GCObject: exactly traced objects are traced at once; the tails with a cursor of very large ones (SplitExactGCObject) are not modelled.
- Marker.GC.PopItem: freeing an object explicitly while it is being marked is not modelled, so that popping a protector has no effect; roots are neither added nor removed during marking.
- Marker.GC.constructor: of the real constructor only the fields of the model; option parsing, policy and statistics are not modelled.
- Marker.GC.IncrementalMark: the time slice is a number of portions.
- Marker.GC.FinishIncrementalMark: the loops of overflow recovery are given up after a number of rounds that is a parameter, since one of them may not end; presweep callbacks, the ZCT and weak references are not modelled, locked objects count as exact roots.
- MarkStack.GCMarkStack.Push: the cached extra segment is not modelled; memory may be refused at any time, and the number of segments is bounded by a parameter.

Hashtable:
- GCHashtable.GCHashtable.constructor: the capacity is a power of two, as the comment at MMgc/GCHashtable-inlines.h:122 has it; what happens otherwise is shown for six slots only.
- GCHashtable.GCHashtable.put: keys are numbers other than DELETED; the handlers for string keys, the wrap-around of 32-bit sizes and the iterators are not modelled.

Page heap:
- GCHeap.GCHeap.Decommit: how many pages to decommit, and whether regions may go, which depend on thresholds and the configuration, are parameters; the branches for when decommitting fails or memory can be lost are not modelled.
- GCHeap.GCHeap.Commit: the counter numDecommitted is not modelled; it is not exact with sloppy commits.
- GCHeap.GCHeap.Expand: reserving and committing memory are left to the operating system, which may hand out any pages that no region reserves; freeing the old block table afterwards is a step of its own.
- GCHeap.GCHeap.Run: new pages of the operating system are zero if memory is virtual; heaps whose recommitted pages are dirty, memory limits, status changes and out-of-memory callbacks are not modelled.
- GCHeap.GCHeap.RemoveFromList: a free list is the sequence of its blocks, so that the circular linking itself is not modelled.
- GCHeap.GCHeap.BaseAddrToBlock: a page that its region has reserved but not committed has no slot, and callers must not ask for it.
- Large regions, which are not in the block array, and LargeAlloc are not modelled.

Small objects:
- GCAlloc.GCAlloc.Free: finalizers, weak references, reference counts, profiling, poisoning and clearing of the freed item are not modelled.
- GCAlloc.GCAlloc.Alloc: allocation while collecting, and greedy collection, are not modelled.
- GCAlloc.GCAlloc.AllocFromQuickList: the lists of blocks and items are sequences, so that the pointers that link them are not modelled; nor is the layout of the bitmaps.
- The marker's heap and the small-object allocators are separate models: the bits of an item here are set by any caller.

Threads:
- ThreadEntry.MutualExclusion: the work at the edge (ThreadEdgeWork), the active collector of a thread and unwinding after an abort are not modelled.

Not modelled at all, since they would add easy members or depend on code that is not part of this model: FixedAlloc and
FixedMalloc, GCLargeAlloc, the ZCT and reference counting, the policy manager, BasicList, the size-class tables, weak
references, the memory profiler, and the ports to operating systems.
