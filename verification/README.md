# Data structures of the compiler front end, verified

This project models the front of the GCC 4.2 / Open64 tree in Dafny and proves what its central data
structures and passes are for.

* **Sparse bitmaps** (`bitmap.c`, `bitmap.h`): a set of naturals as a sorted, doubly linked list of
  128-bit elements, with a search cache and a two-level free list. `Words`, `Elements` and `Merging`
  hold the mathematics of words and sorted element lists, `Obstacks` and `Bitmaps` the heap, and
  `BitmapOps`, `BitmapInto`, `BitmapBits`, `BitmapRange`, `BitmapQueries` and `BitmapCompound` the
  operations. Each is proved against plain `set<nat>`. `BitmapIterators` has the three iterators, and
  `BitmapRuns` whole runs: any interleaving of operations on bitmaps that share an obstack.
* **Branch target registers** (`bt-load.c`): `Dataflow` has the reaching definitions, `DefUseWebs` the
  webs and `LiveRanges` the growth of live ranges.
* **Basic block layout** (`bb-reorder.c`): `FlowGraphs` has the graph and the duplication of blocks, `Chains`
  the chains of blocks, `Traces` builds the traces, `Connections` makes them one chain, and `Reordering` is the
  whole pass with its final verification.
* **Alias analysis** (`alias.c`): `Disambiguation` and `Products` have the tests on addresses, `AliasSets` the
  subset relation.
* **Fixed-size pools** (`alloc-pool.c`): `AllocPools`.
* **Gspin files** (`gspin-mempool.c`, `gspin-tree.c`, `gspin-io.c`): `Mempools` has the arenas,
  `GspinNodes` the layout of nodes, `GspinTree` making them, `GspinIo` and `GspinRead` the writer and the
  reader, `GspinRoundTrip` what comes back, and `GspinPrograms` small graphs that go all the way.

`Helpers` holds what they share.

Code that updates fields and links in place is written that way: classes with a `Valid()` and a ghost
sequence or set, loops with invariants, and methods whose contracts give the new contents in terms of the
old. Values that only weigh frequencies or probabilities are arbitrary choices, so the theorems about the
block layout hold for all heuristics.

Some promises are false of the code in some cases, and are stated with the exact condition:

* A three-operand merge can leave the cache of its destination dangling, because the suffix is cut by
  comparing indices that the merge has overwritten. `CurrentSurvives` says when it does not, and follows
  from the destination being empty or its cache being at the first element.
* Alias sets lose a grandchild that is recorded too late. `Prepared` is the condition for one more pair, and
  `BottomUp` the one for a whole run.
* The test for products divides sizes and offset by the factor. `ProductsAreSound` says when that is right.
* The interval test for two memory references is misled by a negative offset into a decl of unknown size.
* A gspin operand that leads to the node at offset 0 comes back as NULL.
* The reader of gspin files goes on behind the nodes until it comes to the string of the first string node, and
  may change the strings before that. `Passes` is the condition on a file under which it changes nothing, and
  `OnlyPadding` the one under which it takes nothing for a node; both follow from the first string node having
  the first string. It gives up at an empty string that is last in its arena.
* The writer asks for the address of the cell behind the last node, which exists exactly if the last block of
  the node arena is not full. The arena goes wrong when an empty string is put into an arena that has a block
  and nothing in it.
* Traces need not be joined by edges: behind a duplicate the code goes on with a block that it has found behind some
  successor, and keeps when it then finds a likelier edge to a trace of one block. `Stale` is that case.
* The comment on `struct trace` has the length as the number of blocks; a header duplicated for a rotation does not
  count.
* With partitioning, a trace that is neither in the partition of the first trace nor in the one that follows it
  is not connected. The exit block can be on such a trace, if the entry leads straight to it.

The comment in `find_traces` speaks of adding a round for partitioning; the code runs `N_ROUNDS - 1` rounds
with and without it. The model takes the number of rounds as a parameter.

`dafny verify dfyconfig.toml` checks the whole project.

## Model

| member | source | states |
|---|---|---|
| Elements.MergeMembers | osprey-gcc-4.2.0/gcc/bitmap.c:637-689 | Merging two sorted lists without zero elements gives such a list again, and its set is the intersection, difference, union or symmetric difference |
| Elements.CanonicalUnique | osprey-gcc-4.2.0/gcc/bitmap.c:1351-1369 | Two sorted lists without zero elements that hold the same set are the same list, so comparing element by element decides set equality |
| Obstacks.Obstack.Allocate | osprey-gcc-4.2.0/gcc/bitmap.c:100-145 | The element handed out was on the two-level free list, at its very end, or is new; it is never a live one |
| Obstacks.Obstack.ToFreelist | osprey-gcc-4.2.0/gcc/bitmap.c:49-68 | One element is added to the free list, which stays a well-formed list of lists |
| Obstacks.Obstack.ChainToFreelist | osprey-gcc-4.2.0/gcc/bitmap.c:149-185 | A whole chain is added to the free list as one inner list, in constant time, and all its elements are free then |
| Bitmaps.Bitmap.ElementFree | osprey-gcc-4.2.0/gcc/bitmap.c:70-96 | Exactly the given element leaves the list and enters the free list; links and cache stay coherent; a cache on that element moves to the next one, or else to the previous one |
| Bitmaps.Bitmap.ElementLink | osprey-gcc-4.2.0/gcc/bitmap.c:298-351 | A new element is put at the one place that keeps the list sorted, wherever the cache was, and becomes the cached one |
| Bitmaps.Bitmap.EltInsertAfter | osprey-gcc-4.2.0/gcc/bitmap.c:355-384 | A new zero element follows the given one; nothing else in the list changes and the cache still shows the same element |
| Bitmaps.Bitmap.EltClearFrom | osprey-gcc-4.2.0/gcc/bitmap.c:149-185 | Exactly the elements from the given one on go to the free list; if the cached one is among those removed and is not noticed, the cache dangles, and this says when |
| Bitmaps.Bitmap.Clear | osprey-gcc-4.2.0/gcc/bitmap.c:189-195 | The set is empty, and all elements are on the free list |
| Merging.SurvivesWhenFirst | osprey-gcc-4.2.0/gcc/bitmap.c:149-185 | If the destination was empty or its cache was at the first element, no three-operand merge leaves a dangling cache |
| Merging.DanglingCurrent | osprey-gcc-4.2.0/gcc/bitmap.c:149-185 | A concrete bitmap whose cache dangles after a three-operand merge, since the index it is compared with has been overwritten |
| BitmapOps.BitmapCopy | osprey-gcc-4.2.0/gcc/bitmap.c:388-416 | The destination holds the same list as the source |
| BitmapOps.BitmapAnd | osprey-gcc-4.2.0/gcc/bitmap.c:637-689 | DST becomes the intersection, A and B keep theirs, no element is lost, and DST is fully coherent exactly if its cache survives; otherwise the cache points to a freed element |
| BitmapOps.BitmapAndCompl | osprey-gcc-4.2.0/gcc/bitmap.c:740-802 | The same for the difference |
| BitmapOps.BitmapXor | osprey-gcc-4.2.0/gcc/bitmap.c:1217-1288 | The same for the symmetric difference |
| BitmapOps.BitmapIor | osprey-gcc-4.2.0/gcc/bitmap.c:1049-1150 | The same for the union; the result is true exactly if the set DST changed |
| BitmapInto.BitmapAndInto | osprey-gcc-4.2.0/gcc/bitmap.c:693-736 | A becomes its intersection with B, coherent in every case |
| BitmapInto.BitmapAndComplInto | osprey-gcc-4.2.0/gcc/bitmap.c:806-856 | A becomes A without B; true exactly if A changed |
| BitmapInto.BitmapIorInto | osprey-gcc-4.2.0/gcc/bitmap.c:1154-1213 | A becomes the union; true exactly if A changed |
| BitmapInto.BitmapXorInto | osprey-gcc-4.2.0/gcc/bitmap.c:1292-1345 | A becomes the symmetric difference, with elements removed and inserted while walking |
| BitmapInto.BitmapComplAndInto | osprey-gcc-4.2.0/gcc/bitmap.c:980-1045 | A becomes B without A |
| BitSets.PutMembers | osprey-gcc-4.2.0/gcc/bitmap.c:473-507 | Putting one bit of one word to 0 or 1 removes or adds exactly that number |
| BitmapBits.FindBit | osprey-gcc-4.2.0/gcc/bitmap.c:427-469 | From any cache position the search finds the element of a bit, or null exactly if there is none; the set is the same and the cache is left next to where the element would be |
| BitmapBits.BitP | osprey-gcc-4.2.0/gcc/bitmap.c:513-528 | True exactly if the bit is in the set, for every cache position |
| BitmapBits.ClearBit | osprey-gcc-4.2.0/gcc/bitmap.c:473-488 | The set loses exactly that bit; an element that becomes zero is freed |
| BitmapBits.SetBit | osprey-gcc-4.2.0/gcc/bitmap.c:492-509 | The set gains exactly that bit |
| BitmapRange.ClearRange | osprey-gcc-4.2.0/gcc/bitmap.c:859-976 | Exactly the bits from start up to start + count are removed, over partial, whole and missing elements |
| BitmapQueries.EqualP | osprey-gcc-4.2.0/gcc/bitmap.c:1351-1369 | True exactly if the sets are equal |
| BitmapQueries.IntersectP | osprey-gcc-4.2.0/gcc/bitmap.c:1373-1398 | True exactly if the intersection is not empty |
| BitmapQueries.IntersectComplP | osprey-gcc-4.2.0/gcc/bitmap.c:1401-1426 | True exactly if the difference is not empty |
| BitmapQueries.FirstSetBit | osprey-gcc-4.2.0/gcc/bitmap.c:586-633 | The least member, found by halving the word |
| BitmapQueries.CountBits | osprey-gcc-4.2.0/gcc/bitmap.c:558-582 | The cardinality of the set |
| BitmapCompound.IorAndCompl | osprey-gcc-4.2.0/gcc/bitmap.c:1427-1441 | DST = A + (FROM1 - FROM2); true exactly if DST changed; no element is lost, and the temporary gives back all it has taken, from whichever obstack |
| BitmapCompound.IorAndComplInto | osprey-gcc-4.2.0/gcc/bitmap.c:1443-1457 | The same into A, coherent in every case |
| BitmapRuns.PlacedStep | osprey-gcc-4.2.0/gcc/bitmap.c:49-185 | One step of one bitmap keeps every element ever made in exactly one place: one live list, or the free list |
| BitmapRuns.SurvivesFromFirst | osprey-gcc-4.2.0/gcc/bitmap.c:149-185 | A three-operand merge into an empty destination, or one whose cache is on its first element, is safe whatever the operands |
| BitmapRuns.Step | osprey-gcc-4.2.0/gcc/bitmap.c:49-1457 | One operation on one of several bitmaps that share an obstack: the sets and the answer are those of plain sets, every element stays in one place, and the destination stays valid exactly if its cache survives |
| BitmapRuns.Run | osprey-gcc-4.2.0/gcc/bitmap.c:49-1457 | Any interleaving of operations on any number of bitmaps that share one obstack, merges into used destinations among them, computes what plain sets would, answers the same, and keeps every element in exactly one place; it ends early only behind a three-operand merge that has left a cache pointing to a freed element |
| BitmapIterators.RoundUp | osprey-gcc-4.2.0/gcc/bitmap.h:372-415 | Rounding the bit number up to a word boundary skips nothing, also when it stands on the boundary after the decrement |
| BitmapIterators.LowBit | osprey-gcc-4.2.0/gcc/bitmap.h:372-415 | With ones left in the word, the bit number is within the element, and the lowest one tells whether it is a member that is due |
| BitmapIterators.BitmapIterator.SetInit | osprey-gcc-4.2.0/gcc/bitmap.h:203-241 | What is due are the members not below the start bit, including the correction when the first word has nothing left |
| BitmapIterators.BitmapIterator.AndInit | osprey-gcc-4.2.0/gcc/bitmap.h:245-308 | The same for the members of both |
| BitmapIterators.BitmapIterator.AndComplInit | osprey-gcc-4.2.0/gcc/bitmap.h:313-357 | The same for the members of the first that are not in the second |
| BitmapIterators.BitmapIterator.Next | osprey-gcc-4.2.0/gcc/bitmap.h:361-366 | Exactly the current bit is done with |
| BitmapIterators.BitmapIterator.IterSet | osprey-gcc-4.2.0/gcc/bitmap.h:372-415 | True exactly if something is due, and then the bit is the least of it |
| BitmapIterators.BitmapIterator.IterAnd | osprey-gcc-4.2.0/gcc/bitmap.h:419-482 | The same for the intersection |
| BitmapIterators.BitmapIterator.IterAndCompl | osprey-gcc-4.2.0/gcc/bitmap.h:486-534 | The same for the difference |
| BitmapIterators.ForEachSet | osprey-gcc-4.2.0/gcc/bitmap.h:203-241 | The loop yields exactly the members from start on, each once, in increasing order, and ends |
| BitmapIterators.ForEachAnd | osprey-gcc-4.2.0/gcc/bitmap.h:245-308 | The same for the intersection |
| BitmapIterators.ForEachAndCompl | osprey-gcc-4.2.0/gcc/bitmap.h:313-357 | The same for the difference |
| Dataflow.ComputeKill | osprey-gcc-4.2.0/gcc/bt-load.c:616-634 | A definition is killed in a block exactly if the block writes a register for which it is a definition |
| DefUseWebs.KilledIs | osprey-gcc-4.2.0/gcc/bt-load.c:616-634 | With the sets of definitions as the scan has built them, that is exactly if the register it sets is an allocatable one that is written |
| Dataflow.UnionOfPreds | osprey-gcc-4.2.0/gcc/sbitmap.c:650-685 | The union over the predecessors other than the entry |
| Dataflow.ComputeOut | osprey-gcc-4.2.0/gcc/bt-load.c:636-664 | The round-robin iteration in place ends in a fixpoint, and a definition is in bb_out of a block exactly if a path without a kill carries it there |
| Dataflow.LeastSolution | osprey-gcc-4.2.0/gcc/bt-load.c:636-664 | The solution is below every other fixpoint |
| Dataflow.ReachesIsIn | osprey-gcc-4.2.0/gcc/bt-load.c:636-664 | Every fixpoint holds what some path carries |
| DefUseWebs.LinkOne | osprey-gcc-4.2.0/gcc/bt-load.c:727-759 | Linking one user to one definition keeps the table of webs exact, also when the shared next field of the user is overwritten |
| DefUseWebs.WebIsExact | osprey-gcc-4.2.0/gcc/bt-load.c:727-759 | A definition without an ambiguous use has a uses list of exactly the users it reaches, each once, and it is the only definition that reaches them |
| DefUseWebs.StateHas | osprey-gcc-4.2.0/gcc/bt-load.c:683-774 | What reaches a place inside a block is what was made before it in the block and not replaced, or came in and survived |
| DefUseWebs.LinkBtrUses | osprey-gcc-4.2.0/gcc/bt-load.c:666-777 | The scan of all blocks records every user once with the definitions that reach it, and the webs are those records |
| DefUseWebs.WebsCorrect | osprey-gcc-4.2.0/gcc/bt-load.c:666-777 | For a definition without an ambiguous use, walking uses yields each use it reaches once, and no use that it shares or that is of another register |
| DefUseWebs.ReachAtMeans | osprey-gcc-4.2.0/gcc/bt-load.c:666-777 | Reaching a use means: of the register that is used, or of one that is referred to; made by that instruction or earlier in the block, or carried there along a path; and not replaced since by a definition of the same register or clobbered by a call |
| LiveRanges.Grow | osprey-gcc-4.2.0/gcc/bt-load.c:949-980 | The worklist walk adds exactly the blocks that lead to the starting ones outside the range, with the registers live in them |
| LiveRanges.AugmentLiveRange | osprey-gcc-4.2.0/gcc/bt-load.c:889-983 | The range grows by exactly the blocks between the head and the new block; a range closed under predecessors but for its head stays one; the registers added are exactly those live in or at the end of the other blocks taken in and, with the new block above the head, those live in the head block, at the end of the new block and, if asked for, in all of it |
| LiveRanges.HoldsPaths | osprey-gcc-4.2.0/gcc/bt-load.c:889-983 | Such a range holds every block of every path from its head to one of its blocks that does not return to the head |
| LiveRanges.CollectRange | osprey-gcc-4.2.0/gcc/bt-load.c:1016-1033 | The range of a web holds its definition and all uses and is closed under predecessors but where it is entered, at the definition or at a use above it; the registers cover its blocks, and where it is entered what is live from there on, and hold nothing that is live in none of its blocks; with all uses below, it is exactly the blocks that lead to a use without coming through the definition |
| LiveRanges.DefLiveRange | osprey-gcc-4.2.0/gcc/bt-load.c:1013-1055 | The same for the whole function; the registers cover what is live in the blocks of the range and hold nothing else, exactly so with all uses below the definition, and leave out its own register unless that has other uses |
| Chains.ChainInsert | osprey-gcc-4.2.0/gcc/bb-reorder.c:755-803 | A duplicate entered behind a block of a chain leaves a chain with one more block |
| Chains.CutLoop | osprey-gcc-4.2.0/gcc/bb-reorder.c:291-403 | Cutting the loop behind any of its blocks leaves a chain of the same blocks that ends there |
| FlowGraphs.OriginalsGrow | osprey-gcc-4.2.0/gcc/bb-reorder.c:755-764 | After a block has been duplicated and an edge redirected to the duplicate, every block still has the partition of its original and edges to the same originals |
| FlowGraphs.SameRoutes | osprey-gcc-4.2.0/gcc/bb-reorder.c:755-764 | So duplication keeps all routes: the same edges, taken one after the other, lead to blocks with the same original |
| Traces.Layout.Extend | osprey-gcc-4.2.0/gcc/bb-reorder.c:405-417 | One more block joins the trace and leaves its heap; all traces stay chains without a common block |
| Traces.Layout.CopyBb | osprey-gcc-4.2.0/gcc/bb-reorder.c:755-803 | The duplicate has the edges and the partition of its original, the given edge leads to it and no other edge changes, and it joins the trace |
| Traces.Layout.RotateLoop | osprey-gcc-4.2.0/gcc/bb-reorder.c:288-403 | Whatever block is the best end, the trace is rotated in its tail from the header on, and stays a chain; at most a duplicate of the header is put before the loop, for a block with no other edge |
| Traces.Layout.AddSuccessors | osprey-gcc-4.2.0/gcc/bb-reorder.c:553-615 | Every successor but the best one is visited or waits in a heap afterwards |
| Traces.Layout.Diamond | osprey-gcc-4.2.0/gcc/bb-reorder.c:662-712 | The block taken instead of the best successor is a successor too, and has the best one for its only successor, so nothing is lost |
| Traces.Layout.CloseTrace | osprey-gcc-4.2.0/gcc/bb-reorder.c:617-660 | However a trace that closes a loop is ended, it stays a chain, the same original blocks are visited, and one that starts with the block behind the entry goes on to start there |
| Traces.Layout.BuildTrace | osprey-gcc-4.2.0/gcc/bb-reorder.c:466-743 | One more trace is made in this round, at least one more original block is visited, and again no successor of a visited block is forgotten |
| Traces.Layout.OneRound | osprey-gcc-4.2.0/gcc/bb-reorder.c:427-750 | The heap of the round gets empty, and the blocks put off wait in that of the next round |
| Traces.PathVisited | osprey-gcc-4.2.0/gcc/bb-reorder.c:223-285 | With the heaps empty and nothing forgotten, every block on every path from the entry is visited |
| Traces.Layout.FindTraces | osprey-gcc-4.2.0/gcc/bb-reorder.c:223-285 | Exactly the blocks reachable from the entry are on traces, the exit only if the entry leads straight to it; each is on one trace, every trace is a chain from its first to its last block in one partition, and there are no more traces than original blocks; if the entry leads only to the block behind it, the first trace starts there; on a trace each block has an edge to the next, but at one place at most, and its length is the number of its blocks, save perhaps a duplicate; the traces come in the order of the rounds |
| Connections.LinkGroups | osprey-gcc-4.2.0/gcc/bb-reorder.c:979-1020 | Linking the last block of one group of traces to the first of another makes them one chain |
| Connections.Connector.AttachBefore | osprey-gcc-4.2.0/gcc/bb-reorder.c:955-993 | A trace that is not connected comes in front of those collected, whichever predecessor is the best |
| Connections.Connector.Append | osprey-gcc-4.2.0/gcc/bb-reorder.c:995-997 | What has been collected follows the chain made so far |
| Connections.Connector.CopyAfter | osprey-gcc-4.2.0/gcc/bb-reorder.c:1122-1123 | The duplicate follows the last block and belongs to the last trace; the other traces stay chains |
| Connections.Connector.Collect | osprey-gcc-4.2.0/gcc/bb-reorder.c:954-993 | The search for predecessors ends, with the seed as the last trace; each trace collected ends with an edge to the start of the next |
| Connections.Connector.Continue | osprey-gcc-4.2.0/gcc/bb-reorder.c:999-1137 | The search for successors ends, whatever is copied; each trace it adds starts behind an edge from the last, or behind a duplicate; with partitioning all are of the current partition |
| Connections.Connector.FindCopy | osprey-gcc-4.2.0/gcc/bb-reorder.c:1040-1110 | The block to go on with lies behind a successor of the last block, and behind the one to be duplicated unless that is a trace by itself |
| Connections.Connector.ConnectTraces | osprey-gcc-4.2.0/gcc/bb-reorder.c:896-1152 | traces[0] comes first and every trace is connected exactly once, with partitioning exactly those that are in its partition or in the one that follows it; the chain is these traces one after the other, with the duplicates; each follows by an edge, or behind a stale duplicate, or begins a run of traces joined by edges up to the least trace of the pass that is not placed yet; with partitioning those of one partition come before those of the other |
| Reordering.VerifyGrouping | osprey-gcc-4.2.0/gcc/bb-reorder.c:1856-1885 | An error exactly if two changes of partition come behind blocks that have one |
| Reordering.RejectedIsUngrouped | osprey-gcc-4.2.0/gcc/bb-reorder.c:1850-1885 | A chain with an error changes partition more than once; if every block has a partition, so does only such a chain |
| Reordering.TwoPartsGrouped | osprey-gcc-4.2.0/gcc/bb-reorder.c:896-1152 | Traces of one partition followed by those of the other make a chain with at most one change |
| Reordering.ReorderBasicBlocks | osprey-gcc-4.2.0/gcc/bb-reorder.c:1890-1945 | The whole pass: one chain without repetition that holds exactly the blocks reachable from the entry and the duplicates, with partitioning those of them that are in the partition of the first block or the one that follows it; it starts behind the entry; every block keeps the edges and the partition of its original; the verification never fails |
| Reordering.HotOrColdPlaced | osprey-gcc-4.2.0/gcc/bb-reorder.c:1225-1239 | If every block but the entry and the exit is hot or cold, partitioning leaves out none of them |
| Disambiguation.EqualValue | osprey-gcc-4.2.0/gcc/alias.c:1194-1250 | Addresses that compare equal have the same value under all register contents |
| Disambiguation.EqualIsReordered | osprey-gcc-4.2.0/gcc/alias.c:1194-1250 | Addresses compare equal exactly if one becomes the other when operands of sums are exchanged |
| Disambiguation.NoConflictIsSound | osprey-gcc-4.2.0/gcc/alias.c:1649-1729 | The answer 0 for positive sizes means that the byte ranges are disjoint whatever the registers hold |
| Disambiguation.UnknownSizeConflicts | osprey-gcc-4.2.0/gcc/alias.c:1669-1678 | A size of zero or less always conflicts |
| Disambiguation.ConflictSymmetric | osprey-gcc-4.2.0/gcc/alias.c:1649-1729 | Swapping the references, with the offset negated, gives the same answer |
| Disambiguation.ExactOverBase | osprey-gcc-4.2.0/gcc/alias.c:1669-1729 | Over a common base with constant offsets, a register or a sum in any order, and for two integers, the answer is exact |
| Disambiguation.ConflictDecides | osprey-gcc-4.2.0/gcc/alias.c:1649-1729 | For canonical addresses the answer 0 is given exactly if they can be matched up to integers and one operand of sums, which fixes their distance, and that distance keeps the bytes apart |
| Products.ProductsAreSound | osprey-gcc-4.2.0/gcc/alias.c:1734-1757 | For products with the same positive factor the answer 0 is right for all operands exactly if the factor divides both sizes and the offset, or a size is less than it |
| Products.ProductsAreExact | osprey-gcc-4.2.0/gcc/alias.c:1734-1757 | If it divides all three, the answer is exact for operands with the same base |
| Disambiguation.NonOverlappingIsSound | osprey-gcc-4.2.0/gcc/alias.c:2105-2136 | When a claimed separation is wrong: exactly if the lower reference starts before a decl of unknown size and the other is not empty |
| Disambiguation.MisleadingReference | osprey-gcc-4.2.0/gcc/alias.c:2105-2136 | Two such references that share a byte |
| Disambiguation.NonOverlappingIsExact | osprey-gcc-4.2.0/gcc/alias.c:2105-2136 | In all other cases two references that are not empty are declared apart exactly if they can have no byte in common, whether the end of the upper one is known or not |
| AliasSets.RecordAliasSubset | osprey-gcc-4.2.0/gcc/alias.c:655-701 | The descendants of the superset grow by the subset and its descendants, and nothing else changes |
| AliasSets.RecordingIsExact | osprey-gcc-4.2.0/gcc/alias.c:655-701 | Recording one pair keeps children equal to all descendants exactly if whoever already has the superset also has what is new |
| AliasSets.RecordAll | osprey-gcc-4.2.0/gcc/alias.c:655-701 | After any run an entry holds exactly what is below it along pairs that were recorded from the bottom up, zero included |
| AliasSets.ExactIffBottomUp | osprey-gcc-4.2.0/gcc/alias.c:655-701 | So a whole run ends with exactly the descendants if and only if every descendant is one along such pairs |
| AliasSets.FirstIsBottomUp | osprey-gcc-4.2.0/gcc/alias.c:101-129 | It is so if the children of a set are recorded before it becomes a child |
| AliasSets.LateChildIsMissed | osprey-gcc-4.2.0/gcc/alias.c:101-129 | Recorded in the other order, a grandchild is missed |
| AliasSets.LateChildIsTold | osprey-gcc-4.2.0/gcc/alias.c:655-701 | Recorded in the other order and then once more for the grandparent, nothing is missed |
| AliasSets.ConflictIsReachability | osprey-gcc-4.2.0/gcc/alias.c:298-329 | Once the entries hold the descendants, two sets conflict exactly if one covers the other: is zero, is the same, reaches it, or reaches zero |
| AliasSets.ConflictAfterRun | osprey-gcc-4.2.0/gcc/alias.c:298-329 | The same after any run of recordings, with what has been recorded from the bottom up for the descendants |
| AliasSets.ConflictSymmetric | osprey-gcc-4.2.0/gcc/alias.c:298-329 | The answer does not depend on the order |
| AllocPools.AllocPool.constructor | osprey-gcc-4.2.0/gcc/alloc-pool.c:119-181 | An empty pool; the element size is rounded up to eight and holds a link |
| AllocPools.SlotsApart | osprey-gcc-4.2.0/gcc/alloc-pool.c:238-262 | Different slots of all blocks never overlap |
| AllocPools.SlotNotHeader | osprey-gcc-4.2.0/gcc/alloc-pool.c:238-262 | No slot overlaps the header of a block |
| AllocPools.AllocPool.LayoutSafe | osprey-gcc-4.2.0/gcc/alloc-pool.c:222-281 | In every state: slots are aligned, apart from each other and from the headers, and inside a block |
| AllocPools.AllocPool.LiveCount | osprey-gcc-4.2.0/gcc/alloc-pool.c:211-219 | In every state the number of live objects is elts_allocated - elts_free |
| AllocPools.AllocPool.PoolAlloc | osprey-gcc-4.2.0/gcc/alloc-pool.c:222-281 | The object was not live, comes from the free list or from a new block, and live and free slots still partition all slots |
| AllocPools.AllocPool.PoolFree | osprey-gcc-4.2.0/gcc/alloc-pool.c:287-311 | A live object becomes the head of the free list |
| AllocPools.AllocPool.FreeAllocPoolIfEmpty | osprey-gcc-4.2.0/gcc/alloc-pool.c:211-219 | The pool is freed exactly if nothing is live |
| Mempools.AddrInjective | libspin/gspin-mempool.c:80-91 | Different cell indices have different addresses |
| Mempools.Arena.Alloc | libspin/gspin-mempool.c:55-78 | The cells handed out are new, in order, and in one block, so no node or string straddles two; a new block is taken exactly if they do not fit into the last; the arena stays as it should be unless nothing is asked for from an arena with a block and nothing in it |
| GspinPrograms.EmptyTwice | libspin/gspin-mempool.c:55-78 | Nothing asked for twice, from a new arena: it has two blocks then, and nothing in either, because the last index wraps around |
| Mempools.Arena.Idx2Address | libspin/gspin-mempool.c:80-91 | The address of a cell, for every state of the cache |
| Mempools.Arena.Address2ByteOfst | libspin/gspin-mempool.c:95-118 | The inverse: the cell of an address in any block, for every state of the cache, and otherwise the offset in the mapped segment |
| Mempools.Arena.EndHasBlock | libspin/gspin-mempool.c:80-91 | The end of the arena has an address exactly if the last block is not full |
| GspinTree.NewNode | libspin/gspin-tree.c:426-441 | A new node with NULL operands in one block; what was there stays, and the arena is still filled by its nodes |
| GspinTree.SetKid | libspin/gspin-tree.h:397-401 | Exactly one operand changes, and all references stay good |
| GspinTree.SetString | libspin/gspin-tree.c:453-461 | The node has exactly these bytes for its string, be it empty, and is still a string node; other nodes and strings keep theirs; the pool stays valid exactly if the arena does |
| GspinIo.Pool.WriteKids | libspin/gspin-io.c:124-130 | Every operand in the file is the offset of the node it leads to, NULL stays 0 |
| GspinIo.Pool.WriteString | libspin/gspin-io.c:131-136 | The string node in the file has the offset of its string, and the string bytes are there |
| GspinIo.Pool.Write | libspin/gspin-io.c:80-148 | All nodes and strings are in the file, and nothing in the gaps at the block ends |
| GspinRead.Read | libspin/gspin-io.c:150-195 | On any file of nodes and strings: unless it gives up, every offset of every node becomes an address; it comes to its end and leaves all bytes behind the nodes as they are exactly if no string begins at the end of the file and, from the nodes up to the string of the first string node, it meets only padding and what passes for a node without an offset |
| GspinRead.ReaderStops | libspin/gspin-io.c:167-190 | Behind the nodes the reader skips padding and stops exactly if only padding comes before the string of the first string node, or before the end of the file without one; then it has left all of it as it is |
| GspinRead.SectionFirst | libspin/gspin-io.c:167-183 | The strings are taken to begin at the string of the first string node |
| GspinRead.StringsOutOfOrder | libspin/gspin-io.c:167-190 | A file with two string nodes whose strings are in the other order, on which the reader takes string bytes for a node |
| GspinRead.EmptyStringFirst | libspin/gspin-io.c:167-190 | Such a file on which it does not, the earlier string being a single zero byte |
| GspinRoundTrip.WrittenIsReadable | libspin/gspin-io.c:80-195 | A written file is one that the reader can read |
| GspinRoundTrip.ReadOfWritten | libspin/gspin-io.c:80-195 | After writing and reading every node has its value, and its string bytes if the reader has left them as they are, and the pointers lead to the matching nodes exactly if none leads to the node at offset 0 |
| GspinNodes.LeavesHaveRoom | libspin/gspin-tree.c:380-413 | The value of every leaf fits into its node, and the codes without a value or operands are those that no node has, but for the error mark |
| GspinRoundTrip.LeafComesBack | libspin/gspin-io.c:80-195 | So the value of every leaf comes back |
| GspinRoundTrip.InsideIff | libspin/gspin-io.c:80-195 | No string of a written file begins at its end exactly if none is an empty one at the end of its arena |
| GspinRoundTrip.InOrderPasses | libspin/gspin-io.c:80-195 | If the first string node has the first string, or there are neither, the reader leaves the strings of a written file as they are |
| GspinRoundTrip.PathsMatch | libspin/gspin-io.c:80-195 | The same path of operands from matching nodes leads to matching nodes |
| GspinRoundTrip.SharingKept | libspin/gspin-io.c:80-195 | Two paths from the root meet after reading exactly if they met before writing, cycles included |
| GspinRoundTrip.RoundTrip | libspin/gspin-io.c:80-195 | gs_write followed by gs_read, on any complete graph: exactly when the reader comes to its end with the strings as they are, which the written file shows, and everything comes back then |
| GspinPrograms.SelfLoop | libspin/gspin-io.c:124-179 | A node that is its own operand, made, written and read: it comes back with another pointer, being at offset 0 |
| GspinPrograms.OneString | libspin/gspin-list.h:27-33 | A list of one string, made, written and read: all of it comes back, or the reader gives up, which it does exactly if the string has no byte |
| GspinPrograms.FullBlock | libspin/gspin-mempool.c:80-91 | A complete graph of one-word nodes that fills its block, so that the end of the arena has no address |

## Left out

Bitmaps

- Words are naturals below 2^64, two to an element; bit numbers are unbounded, so the overflow at the topmost element is not modelled.
- One class stands for the obstack and the garbage-collected free list; obstack memory, statistics and printing are left out, and so is `bitmap_hash`.
- Assertions in the code are preconditions here, and `bitmap_copy` takes two different bitmaps.
- Assignments that several operations share are written once, as helper methods.
- BitmapRange.ClearRange: does not cover an empty range at bit 0, because the code then computes with the bit below 0 and looks at elements that cannot exist.
- BitmapRange.ClearRange: the loop over the words strictly between the first and the last has no turns with two words to an element, and is left out.
- BitmapQueries.CountBits: the population count of a word is that of the compiler built-in, defined bit by bit.

Branch target registers

- The scan of the instructions that yields definitions, users and gen sets is an input, as are the flow graph, the dominators and the registers each instruction writes.
- Register sets and live ranges are plain sets; the bitmap operations they use are those above.
- LiveRanges.CollectRange: says which blocks are in the range, and which registers, exactly only if the definition dominates all uses, because otherwise it depends on the order in which the uses are looked at.
- LiveRanges.AugmentLiveRange: the worklist is a sequence that can grow, where the code has a fixed array.
- Choosing registers, combining webs and moving instructions are left out.

Basic block layout

- Frequencies, counts, probabilities, edge flags other than crossing, code sizes and heap keys are arbitrary choices; a heap is a set of blocks.
- Reordering.ReorderBasicBlocks: asks that the entry has a successor and the exit none, as in every flow graph of the compiler.
- Traces.Layout.FindTraces: does not say in which order the blocks of a heap come, because nothing in the layout rests on it.
- Finding the hot and cold blocks, the fix-up of crossing edges, and the jumps, labels and notes that are made afterwards.

Alias analysis

- Addresses are registers, integers and sums; symbols, HIGH and LO_SUM, auto-increment, AND and VALUE are left out.
- Products.ProductsAreSound: takes products on their own, with the same positive integer factor, and not as parts of sums or with a negative factor.
- Integers do not wrap around, and `canon_rtx` is taken to have been applied.
- The parts of `nonoverlapping_memrefs_p` before the interval test, type-based sets, base values and `init_alias_analysis`.

Pools

- The memory that blocks are made of is a parameter; statistics and the checks that poison freed memory are left out. `Store` is a client that writes to its object.

Gspin

- A long double has three words, as on i386.
- A 4-byte word is one value, kept at its first byte; pointers have 4 bytes.
- Opening, sizing and mapping files; a mapped file is the sequence of its cells.
- The table of codes is a parameter; names, flags, printing and the fields of leaf nodes other than strings are left out.
- GspinTree.SetString: takes at most 2^23 - 1 bytes, because longer ones do not fit in the length field.
- GspinRead.Read: takes what is read behind the end of a file as zeros, as the rest of its last page is, and not as a fault; an offset of 2^31 or more is one that is not in the file, though the check of operands is made on signed words.
- GspinIo.Pool.Write: asks that every string node has its string, that there is a node, and that the last block of the node arena is not full, for the reason that GspinPrograms.FullBlock gives.
