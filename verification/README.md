# Verification of a Contiki-NG based scheduling system

A Dafny model of the parts of the repository whose correctness is hardest to see, with proofs:
the heap allocator, the advertisement protocol of neighbour data collection, the TSCH
scheduler of the master with its shortest-path search, the SLIP link, the Trickle timer, the
fixed-size hash map and CCM*. `dafny verify dfyconfig.toml` checks everything.

| file | models |
|---|---|
| `HeapMem.dfy` | `os/lib/heapmem.c`: chunks tiling the arena and the free list through their headers |
| `HeapRuns.dfy` | runs of the allocator on which its guards fail |
| `Collection.dfy` | `examples/neighbour-data-collection/neighbour-data-collection.c`: the flooding of advertisements as a state machine over lossy FIFO links |
| `Quiescence.dfy` | the same protocol: messages die out, and one wave converges |
| `PriorityDictionary.dfy` | `Master/Python/priodict.py`: the lazily cleaned binary heap |
| `Dijkstra.dfy` | `Master/Python/dijkstra.py` on that heap |
| `Flow.dfy` | `Master/Python/flow.py`: splitting of paths, window sizes, cells |
| `Scheduler.dfy` | `Master/Python/scheduling.py`: slot search, EDF, RMS, C-LLF, truncation |
| `Laxity.dfy` | the runs of C-LLF: when its loop ends, and when cells lie in order |
| `ReversedPlacement.dfy` | `Master/Python/scheduling.py`: R-LPF and the reversal of the grid |
| `SlotAllocation.dfy` | `Master/Python/scheduling.py`: TX and RX slots for neighbour data |
| `Slip.dfy` | `tools/tunslip6.c` (encoder) and `os/dev/slip.c` (receiver) as a queue of bytes, framing of RFC 1055 |
| `SlipReceiver.dfy` | the cyclic buffer of `os/dev/slip.c` that implements the queue |
| `SlipWindow.dfy` | polls that the interrupt cuts into |
| `SlipLeading.dfy` | streams whose frames also begin with an END |
| `SlipOverflow.dfy`, `SlipRuns.dfy` | streams that fill the ring |
| `TrickleTimer.dfy` | `os/lib/trickle-timer.c`, section 4.2 of RFC 6206 |
| `HashMap.dfy` | `os/sys/hash-map.c` |
| `CcmStar.dfy` | `os/lib/ccm-star.c`, sections 2.2 and 2.3 of RFC 3610 |
| `Bytes.dfy`, `Common.dfy` | the byte type, options, and facts on sets, sequences and products that several files share |

Code that changes things in place is a class or a method with loops; its contract ties it to
functions on values, about which the lemmas speak. In the allocator headers and payload
share one memory: writing a header overwrites bytes, writing a byte destroys the headers over
it, and reading a header needs a proof that it is intact. Clocks, random numbers, the cipher, link
strengths, losses and the interleaving of interrupts and polls are parameters, so the results hold for
all of them.

Where the code departs from its own comments or from what one would expect, the model
follows the code:

- heapmem.c: size computations can wrap; `HeapMem.Heap.Alloc` and `HeapMem.Heap.Realloc` say exactly for which requests the answer is then unsound, and `HeapRuns` has a run for each way.
- heapmem.c: the comment on heapmem_free promises merging on free; `HeapMem.Heap.Free` merges nothing, and `HeapRuns.AdjacentFree` ends with two free neighbours; chunks are merged by allocation, reallocation and statistics.
- neighbour-data-collection.c: a new sequence number lets a node ignore better news of the previous wave (`Collection.SecondWaveSpoils`); `Collection.WidestIff` says exactly when that matters.
- dijkstra.py: the comment asks for positive weights; zero weights are fine, and with an exhausted queue so are negative ones (`Dijkstra.ExhaustedIsExact`).
- scheduling.py: R-LPF tests deadlines on the timeslots before the grid is reversed (`ReversedPlacement.ScheduleBackwards`).
- flow.py: a maximum sub-flow length of 2 yields a one-node sub-path (`Flow.Split`).
- scheduling.py: line 244 compares a set of nodes with a set of tuples and so empties the list of released flows after one flow; `Scheduler.Schedule.ScheduleByLaxity` therefore gives one flow a turn per timeslot. C-LLF never sets last_timeslot (`Scheduler.LaxityCutsOff`).
- scheduling.py: EDF and RMS raise an exception when a cell finds no slot. C-LLF skips the cell, keeps the flow pending and later places all its cells again. So its loop need not end (`Laxity.EndsIff`, `Laxity.MeetingEndsIff`), as with a window of five slots on a path of two nodes (`Laxity.NeverDone`), and when it ends, a cell can lie before its predecessors (`Laxity.OrderIff`, `Laxity.EndsOutOfOrder`). With as many timeslots as cells behind the latest release neither happens (`Laxity.RoomIsEnough`).
- slip.c: an END in front of a packet is skipped only on an empty ring. Behind a buffered packet it is stored; its packet is then returned with the byte 192 in front, or merged with what follows, or not seen (`SlipLeading.LeadingEndsIff`, `SlipLeading.StrayByte`, `SlipLeading.HiddenPacket`).
- slip.c: an overflow gives up the terminator of a buffered packet. The poll that follows searches on into stale memory, where it can even find the packets that were given up (`SlipRuns.FullButDelivered`), so a full ring does not always mean a lost packet; `SlipOverflow.DeliveredIff` says when.
- slip.c: a terminator that arrives after a poll has noted the end of its search, and before it releases the packet, is seen by no poll: the packet stays in the ring, or is merged with the next one (`SlipWindow.WindowsIff`, `SlipWindow.MergedPackets`).
- slip.c: the length test comes before the write, so a packet of one byte too many is written past the output buffer and returned (`SlipReceiver.Receiver.CopyPacket`, `SlipReceiver.OutputTooLong`).
- hash-map.c: key 0 marks unused slots; inserting it makes the entry count wrong until the table is cleared (`HashMap.Table.Insert`, `HashMap.RefusedTooEarly`). Put behind a used first slot, it leaves a chain that leads to an unused slot, and a later insertion can link that slot to itself; lookups then do not end (`HashMap.ZeroThenLoop`, `HashMap.LoopIff`, `HashMap.SelfLink`).
- trickle-timer.h documents k = 0 as "suppression disabled", but trickle_timer_config rejects it; and it says that a stopped timer resumes only by trickle_timer_set, but trickle_timer_inconsistency restarts it.
- trickle-timer.c: only the generic variant of max_imax decrements its argument (`TrickleTimer.FlavoursAgreeIff`); the comment on Imin admits 2^(W-1), the test does not. For odd I the drawn point can lie half a tick before I/2.
- ccm-star.c: lengths are bytes, but the loops end only up to 240 and 254 (`CcmStar.LoopEndsIff`).

## Model

| member | source | states |
|---|---|---|
| `HeapMem.TilingIsExact` | os/lib/heapmem.c:146-150 | in every state of the invariant each byte below the footprint lies in exactly one chunk |
| `HeapMem.LiveBlocksDisjoint` | os/lib/heapmem.c:133-150 | a live block lies inside the arena, apart from every header and from every other live block |
| `HeapMem.Heap.constructor` | os/lib/heapmem.c:146-150 | a fresh heap satisfies the invariant and holds no block |
| `HeapMem.AlignExact` | os/lib/heapmem.c:104-105 | ALIGN gives the least multiple of the alignment not below the size, unless the sum wraps |
| `HeapMem.AlignWrapsToZero` | os/lib/heapmem.c:104-105 | a size so large that the sum wraps is aligned to 0 |
| `HeapMem.ExtendSoundIff` | os/lib/heapmem.c:154-167 | the extension alone, for every request of type size_t: the grant covers it and the footprint covers the grant if and only if no sum wraps or the wrapped sum is refused |
| `HeapMem.WrappingRequestIsUnsound` | os/lib/heapmem.c:154-167 | a concrete request of SIZE_MAX bytes that the extension grants a chunk of length 0 |
| `HeapMem.GrowthSeenIff` | os/lib/heapmem.c:413-435 | the int difference in realloc is the true growth if and only if that fits an int, and shows growth if and only if its remainder does |
| `HeapMem.DifferenceAsInt` | os/lib/heapmem.c:433-433 | the conversion of the wrapped size_t difference to int depends on the true difference only |
| `HeapMem.Heap.ExtendSpace` | os/lib/heapmem.c:154-167 | the footprint becomes the sum as computed if the arena has room for that, and is unchanged otherwise |
| `HeapMem.Heap.FreeChunk` | os/lib/heapmem.c:170-187 | the chunk goes back to the wilderness if it is last, else to the head of the free list; only headers are written |
| `HeapMem.FreeOutcome` | os/lib/heapmem.c:170-187 | either way the invariant holds again and the live blocks are the old ones without this one, byte for byte |
| `HeapMem.Heap.AllocateChunk` | os/lib/heapmem.c:191-208 | the chunk leaves the doubly linked list, which stays well formed and keeps its order |
| `HeapMem.UnlinkKeepsLinks` | os/lib/heapmem.c:196-207 | the pointer updates of a removal, at the head, in the middle or at the end, give the links of the shorter list |
| `HeapMem.TookOutcome` | os/lib/heapmem.c:191-208 | taking a free chunk adds one live block and changes no other |
| `HeapMem.Heap.SplitChunk` | os/lib/heapmem.c:215-231 | the block is cut back to the aligned size exactly when the rest can hold a chunk; its kept bytes and all other blocks stay, and the footprint does not grow |
| `HeapMem.CutOutcome` | os/lib/heapmem.c:222-230 | cutting a live chunk keeps the invariant and shortens only that block |
| `HeapMem.Heap.CoalesceChunks` | os/lib/heapmem.c:235-246 | exactly the free chunks that lie one behind the other from its end on are swallowed, so that no free chunk follows afterwards; clients see at most a longer block |
| `HeapMem.AbsorbOutcome` | os/lib/heapmem.c:243-244 | swallowing the next free chunk keeps tiling and list in step |
| `HeapMem.Heap.DefragChunks` | os/lib/heapmem.c:250-264 | invisible to clients; as many list entries as the search bound are swallowed or stand at the front of the list with no free chunk behind them; a list within the bound comes out with no two free chunks adjacent; and whatever size an entry within the bound could serve before can be served by one afterwards |
| `HeapMem.SufficesStill` | os/lib/heapmem.c:235-264 | why: an entry that is large enough either stands no further back in the list or lies within the chunk that swallowed it |
| `HeapMem.Swallowed` | os/lib/heapmem.c:235-246 | what vanishes in coalescing lies within the coalesced chunk, which is at least as long as each of its parts |
| `HeapMem.IndexShrinks` | os/lib/heapmem.c:191-208 | removing entries from the list moves none of the others back |
| `HeapMem.ListStep` | os/lib/heapmem.c:257-263 | coalescing at a list entry and following its next pointer leaves nothing uncoalesced behind and strictly less ahead |
| `HeapMem.Heap.SearchBest` | os/lib/heapmem.c:277-298 | the first of the smallest sufficient chunks among the first CHUNK_SEARCH_MAX; none if and only if none of these is sufficient |
| `HeapMem.Heap.GetFreeChunk` | os/lib/heapmem.c:268-307 | in the heap that defragmentation leaves: the best fitting entry within the search bound, cut to the aligned size where the rest can hold a chunk, with no larger footprint; null, and no further change, if and only if none suffices |
| `HeapMem.Heap.Alloc` | os/lib/heapmem.c:327-353 | freed memory is used again: the chunk is the best fitting entry within the search bound of the list that defragmentation leaves, if one suffices, and only otherwise a new one behind all others; the list then is that one without the entry, with the rest that was cut off, if any, in front; if an entry of the list as it was suffices, a block is returned and the footprint does not grow; null means that the arena has no room behind the footprint and no entry suffices. For every request of type size_t: the answer is sound (null and nothing changed, or one new block that is long enough, at most a header beyond the aligned size, with all others untouched and the heap well formed) if and only if a guard on request, footprint and free list holds; and what is returned when it fails |
| `HeapMem.Heap.NewChunk` | os/lib/heapmem.c:335-343 | extending by a new chunk, with sums that wrap |
| `HeapMem.AllocFailsBeyondArena` | os/lib/heapmem.c:332-341 | the guard can fail only for requests larger than the arena |
| `HeapMem.BeyondArenaUnsound` | os/lib/heapmem.c:146-150 | a pointer returned for such a request is sound under no tiling of the heap whatever |
| `HeapMem.Heap.Free` | os/lib/heapmem.c:371-384 | exactly the given block disappears: its chunk goes to the front of the free list, or the footprint shrinks by it; no two chunks are merged; a null pointer is ignored |
| `HeapMem.Heap.Realloc` | os/lib/heapmem.c:408-483 | null pointer, zero size, shrink in place, grow in place, move, for every request of type size_t and arenas larger than an int too: the answer is sound (the first min(old, new) bytes kept and no other block changed, or null with the old contents intact) if and only if the guard holds; where it fails, what comes of the request. A growth that fits an int stays in place if the block is the last one and the arena has room, or if its length together with the free chunks right behind it is enough, and the new length is the one asked for as far as the rest can hold a chunk; else it is served as a new request, and refused only if the arena has no room and no free chunk within the search bound suffices. A shrink of the last block that is taken for a growth either extends the footprint, which then fits no tiling, or, if a null pointer is returned, changes nothing |
| `HeapMem.Heap.Resize` | os/lib/heapmem.c:426-482 | the same for a block and a non-zero request |
| `HeapMem.SizesOf` | os/lib/heapmem.c:432-435 | aligned size and footprint are true for requests within the arena, and the growth is the true one as long as it fits an int |
| `HeapMem.Heap.GrowInPlace` | os/lib/heapmem.c:443-466 | growing at the end of the heap or into following free chunks, whatever the growth is taken for, and when either succeeds |
| `HeapMem.BrokenStretch` | os/lib/heapmem.c:443-453 | a size written into the last chunk that the footprint has not grown by leaves no tiling, so no well-formed heap |
| `HeapMem.StretchOutcome` | os/lib/heapmem.c:449-452 | extending the last chunk keeps the invariant and all contents |
| `HeapMem.Heap.Move` | os/lib/heapmem.c:474-482 | the block moves with its contents to where a new one of that size goes, or nothing changes because there is no such place |
| `HeapMem.Heap.CopyPayload` | os/lib/heapmem.c:479-479 | memcpy between two live blocks damages no header and no third block |
| `HeapMem.Heap.Write` | os/lib/heapmem.c:113-118 | a client store inside its block changes that byte of that block and nothing else |
| `HeapMem.PokeOutcome` | os/lib/heapmem.c:113-118 | why: the byte lies under no header and in no other block |
| `HeapMem.Heap.HeapStats` | os/lib/heapmem.c:487-508 | allocated + available + overhead = arena size; allocated is the total length of the live blocks, chunks their number with the free ones, and no two free chunks are adjacent afterwards |
| `HeapMem.SettledAfter` | os/lib/heapmem.c:500-501 | coalescing as the statistics go along reopens nothing behind |
| `HeapRuns.ShortBlock` | os/lib/heapmem.c:332-334 | a run in which a request of SIZE_MAX bytes is answered with a freed block of at most 16 |
| `HeapRuns.EmptyBlock` | os/lib/heapmem.c:335-340 | a run in which it is answered with a new block of none |
| `HeapRuns.FootprintShrinks` | os/lib/heapmem.c:336-340 | a run in which a wrapped extension moves the end of the footprint back over a live block |
| `HeapRuns.FootprintInsideHeader` | os/lib/heapmem.c:336-340 | a run in which it leaves a footprint shorter than a header |
| `HeapRuns.GrowthTakenForShrink` | os/lib/heapmem.c:433-440 | a run in which realloc takes growth beyond INT_MAX for a shrink |
| `HeapRuns.SmallWrappedGrowth` | os/lib/heapmem.c:449-452 | a run in which growth by 2^32 + 8 extends the footprint by 8 |
| `HeapRuns.GrowthWithinArena` | os/lib/heapmem.c:432-441 | with an arena larger than an int a growth that fits the arena is taken for a shrink, and the short block handed back |
| `HeapRuns.ShrinkTakenForGrowth` | os/lib/heapmem.c:432-453 | there a shrink of the last block extends the footprint instead |
| `HeapRuns.MovedBeyondFootprint` | os/lib/heapmem.c:474-482 | a run in which the new block of a realloc wraps around |
| `HeapRuns.AdjacentFree` | os/lib/heapmem.c:371-384 | a run after which two free chunks lie next to each other |
| `HeapRuns.FreedIsReused` | os/lib/heapmem.c:268-307 | a run in which a block that was freed is handed out again |
| `Collection.Device.OnAdvertisement` | examples/neighbour-data-collection/neighbour-data-collection.c:61-111 | the in-place update of the static variables is one reception step of the protocol: a new wave through the best node sets the strength to what it offers, be that less; otherwise only a stronger offer of a wave that is not outdated is taken; and the new value is broadcast unless it is the last one sent |
| `Collection.StepKeepsInv` | examples/neighbour-data-collection/neighbour-data-collection.c:61-111 | advertising, delivering and losing a message each keep the protocol invariant |
| `Collection.Reachable` | examples/neighbour-data-collection/neighbour-data-collection.c:61-111 | the invariant holds after every run, with any losses |
| `Collection.RoutesLeadToMaster` | examples/neighbour-data-collection/neighbour-data-collection.c:67-109 | after every run, following bestNode from a node that has one reaches node 1 without a repetition, and no link on the way is weaker than the node's maxMasterStrength |
| `Collection.RouteIsUnique` | examples/neighbour-data-collection/neighbour-data-collection.c:67-85 | there is only one such route |
| `Collection.DeliverKeepsChannel` | examples/neighbour-data-collection/neighbour-data-collection.c:67-99 | messages in flight on a link stay in order of strength and consistent with both ends |
| `Collection.AdvertiseKeepsMotes` | examples/neighbour-data-collection/neighbour-data-collection.c:193-205 | the master's periodic advertisement keeps every node consistent |
| `Collection.WidestPaths` | examples/neighbour-data-collection/neighbour-data-collection.c:67-100 | when no lost or outdated offer exceeds what its receiver finally holds and nothing is in flight, a node has a parent if and only if node 1 reaches it, and maxMasterStrength is the widest-path value, capped at 100 |
| `Collection.WidestIff` | examples/neighbour-data-collection/neighbour-data-collection.c:67-100 | for any run that has come to rest, with losses and overlapping waves: all nodes have these values if and only if no lost or outdated offer exceeds what its receiver finally holds |
| `Collection.WidestIsHarmless` | examples/neighbour-data-collection/neighbour-data-collection.c:72-85 | the other half: with widest-path values everywhere, nothing of use was ever lost or ignored |
| `Collection.HarmlessSpreads` | examples/neighbour-data-collection/neighbour-data-collection.c:67-100 | why: whatever a node holds is on its way to each neighbour or no more than what that finally holds |
| `Collection.OneWaveIsHarmless` | examples/neighbour-data-collection/neighbour-data-collection.c:67-100 | a single advertisement wave without loss discards nothing |
| `Collection.SecondWaveSpoils` | examples/neighbour-data-collection/neighbour-data-collection.c:72-85 | with two overlapping waves the value can stay below the widest path: a triangle that ends at 10 instead of 80 |
| `Quiescence.Quiesces` | examples/neighbour-data-collection/neighbour-data-collection.c:90-109 | from every reachable state only a bounded number of deliveries and losses can happen before the master advertises again |
| `Quiescence.ActiveShrinks` | examples/neighbour-data-collection/neighbour-data-collection.c:90-109 | why: a node broadcasts only on a rise in strength, strengths take finitely many values, and a broadcast adds at most one message per link |
| `Quiescence.StepKeepsTidy` | examples/neighbour-data-collection/neighbour-data-collection.c:67-109 | every strength is 100 or that of a link, and a node holds what it last broadcast |
| `Quiescence.WaveConverges` | examples/neighbour-data-collection/neighbour-data-collection.c:67-109 | after one advertisement of the master every order of deliveries is finite, can be completed, and ends with every node at its widest-path value |
| `PriorityDictionary.RootIsLeast` | Master/Python/priodict.py:15-33 | in a heap-ordered list the first pair is least |
| `PriorityDictionary.LiveRootIsLeast` | Master/Python/priodict.py:20-33 | with every live pair in the heap, a live root is the least live pair, whatever stale pairs there are |
| `PriorityDictionary.PriorityDictionary.RemoveRoot` | Master/Python/priodict.py:21-32 | sifting down the last pair removes just the root and keeps the order |
| `PriorityDictionary.SiftDownStep` | Master/Python/priodict.py:23-32 | one level of sifting down |
| `PriorityDictionary.PriorityDictionary.Push` | Master/Python/priodict.py:54-61 | sifting up adds just the new pair and keeps the order |
| `PriorityDictionary.SiftUpStep` | Master/Python/priodict.py:57-60 | one level of sifting up |
| `PriorityDictionary.PriorityDictionary.Smallest` | Master/Python/priodict.py:15-33 | terminates, never empties the heap of a non-empty dictionary, and returns the key of the least live pair; none if and only if the dictionary is empty |
| `PriorityDictionary.RootDropped` | Master/Python/priodict.py:20-21 | dropping a stale root loses no live pair |
| `PriorityDictionary.PriorityDictionary.Set` | Master/Python/priodict.py:44-61 | the map gets the new value; the heap is rebuilt exactly when it has more than twice as many pairs as there are keys |
| `PriorityDictionary.SortedItems` | Master/Python/priodict.py:51-52 | the rebuilt heap is ascending and holds the live pairs exactly |
| `PriorityDictionary.PriorityDictionary.Remove` | Master/Python/priodict.py:41-41 | deleting a key leaves its pair behind, harmlessly |
| `PriorityDictionary.PriorityDictionary.Drain` | Master/Python/priodict.py:35-42 | destructive iteration yields every key once in strictly ascending order of (value, key) |
| `Dijkstra.ShortestDistances` | Master/Python/dijkstra.py:48-71 | every final distance is exact for non-negative weights, or when the queue ran empty; the better-path error needs a negative weight and names a final vertex to which an edge leads a shorter way; the other error names a reachable vertex without an entry, which for non-negative weights is no further than any vertex that is not final, the end among them |
| `Dijkstra.ExhaustedIsExact` | Master/Python/dijkstra.py:48-71 | with the queue empty the final vertices are the reachable ones, with shortest distances, even for negative weights |
| `Dijkstra.NearestIsExact` | Master/Python/dijkstra.py:53-56 | for non-negative weights the queue's least vertex is final |
| `Dijkstra.WalkBound` | Master/Python/dijkstra.py:53-69 | no walk from the start is shorter than a final distance or than the least queue entry |
| `Dijkstra.RelaxStep` | Master/Python/dijkstra.py:62-69 | relaxing an edge keeps the tree of predecessors and the relaxed edges |
| `Dijkstra.FinaliseStep` | Master/Python/dijkstra.py:53-54 | so does making a vertex final |
| `Dijkstra.TreeWalk` | Master/Python/dijkstra.py:67-69 | the predecessors of a final vertex spell a walk of its distance |
| `Dijkstra.RelaxAll` | Master/Python/dijkstra.py:62-69 | one pass over the edges of a vertex relaxes all of them, or finds a better path to a final vertex |
| `Dijkstra.Trace` | Master/Python/dijkstra.py:85-92 | following predecessors terminates and gives a walk from start to end of the stated cost |
| `Dijkstra.ShortestPath` | Master/Python/dijkstra.py:74-92 | the path is a walk from start to end with the returned cost, no walk costs less for non-negative weights, and failure means no walk or a vertex other than the end that is missing from the graph, and for non-negative weights is no further away than the end |
| `Flow.NumSubFlows` | Master/Python/flow.py:38-42 | the least number of sub-flows from two on whose length fits |
| `Flow.PiecesFit` | Master/Python/flow.py:39-49 | minimality makes every piece non-empty and the pieces cover the path |
| `Flow.Split` | Master/Python/flow.py:37-50 | as many sub-paths as the least number that fits, all but the last adding the same number of nodes; gluing them at their shared nodes gives back the path; each has at most the permitted length, and at least two nodes exactly when that is 3 or more |
| `Flow.SubPathCost` | Master/Python/flow.py:54-61 | the cost of a sub-path is the sum over its hops |
| `Flow.CostJoin` | Master/Python/flow.py:54-61 | costs add up where two pieces meet |
| `Flow.SplitKeepsCost` | Master/Python/flow.py:52-61 | sub-path costs sum to the cost of the whole path |
| `Flow.CalculateWindowSize` | Master/Python/flow.py:64-104 | the window size by algorithm and factor; fixed sizes below two are rejected |
| `Flow.WindowAtLeastTwo` | Master/Python/flow.py:73-104 | links with ETX of at least 1 give a window of at least two |
| `Flow.CellsMatchCost` | Master/Python/flow.py:73-104 | the cells of a sub-path are as many as its ETX cost, scaled and rounded up, or as the scaled sum of the costs of its hops, each rounded up |
| `Flow.SumCeilBounds` | Master/Python/flow.py:80-88 | rounding hop by hop costs at most one more for each hop |
| `Flow.IndicesInBounds` | Master/Python/flow.py:131-143 | every insertion index is a slot of the sub-path |
| `Flow.SlidingCells` | Master/Python/flow.py:128-145 | h + w - 2 cells, the k-th holding the nodes from max(0, k - w + 2) to min(h, k + 1) in path order; every sender has w - 1 transmissions |
| `Flow.HopServed` | Master/Python/flow.py:133-145 | over distinct nodes each hop is served by exactly the w - 1 cells from its index on, and every cell has two nodes or more |
| `Flow.InsertedIff` | Master/Python/flow.py:133-143 | a node is put into exactly the cells whose window covers it |
| `Flow.HopCells` | Master/Python/flow.py:114-127 | one cell per transmission of each hop, in path order, and the transmission count of every sender |
| `Flow.HopRange` | Master/Python/flow.py:114-127 | each hop has as many cells as transmissions, one behind the other, behind those of the hops before it |
| `Flow.HopServedOnce` | Master/Python/flow.py:114-127 | over distinct nodes the cells of a hop are exactly those |
| `Flow.SlidingSpans` | Master/Python/flow.py:128-145 | consecutive sliding-window cells share a node, from the first to the last of the path |
| `Flow.HopByHopSpans` | Master/Python/flow.py:114-127 | so do consecutive cells of the other strategies |
| `Flow.FlowSpans` | Master/Python/flow.py:112-145 | and so do the cells of a whole flow across its sub-paths |
| `Scheduler.FindSchedulableSlot` | Master/Python/scheduling.py:45-56 | the first timeslot from the release on in which the channel scan succeeds |
| `Scheduler.EarlyExitIsSound` | Master/Python/scheduling.py:45-56 | while occupied channels form a prefix, the scan that stops at the first empty channel succeeds if and only if the timeslot is not blocked, and then no cell there shares a node |
| `Scheduler.EarlyExitNeedsPrefix` | Master/Python/scheduling.py:45-56 | without the prefix it can accept a timeslot in which a node is busy |
| `Scheduler.PutKeeps` | Master/Python/scheduling.py:158-158 | placing a cell there keeps occupied channels a prefix and timeslots free of conflicts |
| `Scheduler.Schedule.Search` | Master/Python/scheduling.py:45-56 | a found slot lies at most as many slots after the release as there are cells placed; nothing earlier is possible |
| `Scheduler.Schedule.PlaceFlow` | Master/Python/scheduling.py:143-165 | the cells of a flow go into strictly later and later timeslots, each into the first one from there on that can take it. An exception for a missed deadline means that for the next cell this one is too late, one for want of a slot that there is none; in "enabled" mode the cells up to the first that cannot be in time are placed; and with timeslots in time for all cells placed and its own, every cell is placed |
| `Scheduler.Schedule.ScheduleInOrder` | Master/Python/scheduling.py:138-195 | EDF and RMS: prefix and conflict freedom hold throughout; every cell goes into the first timeslot that can take it behind the one before it, within its bounds; an exception names the flow and the cell for which that timeslot is too late, or for which there is none; if every flow has timeslots in time for its cells and those of the flows before it, all cells are placed; and the last timeslot noted is that of the latest cell |
| `Scheduler.Schedule.ScheduleByLaxity` | Master/Python/scheduling.py:198-246 | C-LLF outside "enabled" mode, for any number of rounds of its loop and whichever released flow is taken: prefix and conflict freedom hold over all turns; the turns are those of released flows with cells pending, a round goes by without one only if there is no such flow, and they do what the pure turns do; a missed deadline means that a cell of the next turn would be too late, and none was before; while no search fails, the flows come to lie in order of their turns; and with as many timeslots as cells behind the latest release no search fails and the loop ends |
| `Scheduler.Schedule.TakeTurn` | Master/Python/scheduling.py:222-240 | one turn searches for every cell of the flow again, skips those without a slot, and completes it, in order, if the timeslots behind its release outnumber the cells placed and its own; it raises exactly if a cell of the turn would be too late |
| `Scheduler.InTimeAndKept` | Master/Python/scheduling.py:138-195 | in "infeasible" mode with a cycle above 1 every cell lies within [release, release + deadline) and the cycle, after the cell before it, at most (cells placed before) slots late, and survives truncation |
| `Scheduler.InTimeByLaxity` | Master/Python/scheduling.py:198-246 | the same for C-LLF, for the flows in the order of their turns as long as no search fails |
| `Scheduler.LaxityCutsOff` | Master/Python/scheduling.py:199-255 | C-LLF never notes its last timeslot: with cycle 1 and no failed search a cell survives the truncation if and only if it is at timeslot 0, which only the first cell of a flow can be |
| `Scheduler.TruncateKeeps` | Master/Python/scheduling.py:249-255 | truncation removes exactly the timeslots from the cycle on and keeps both properties |
| `Scheduler.ScheduleAndCut` | Master/Python/scheduling.py:138-260 | placement, choice of the last timeslot and truncation together: an index error exactly if the cycle is longer than the grid; else a grid without conflicts with every cell that was placed, and none is cut off unless a cycle is given and deadlines are not enforced |
| `Laxity.TurnKeeps` | Master/Python/scheduling.py:222-240 | a turn keeps prefix and conflict freedom, and either changes nothing or takes free slots |
| `Laxity.TurnSkips` | Master/Python/scheduling.py:222-226 | a cell is skipped only because no timeslot from the release, or from behind an earlier cell of the turn on can take it |
| `Laxity.IdleIff` | Master/Python/scheduling.py:222-240 | a turn places nothing if and only if no timeslot from the release on can take any cell of the flow |
| `Laxity.DeadStays` | Master/Python/scheduling.py:222-240 | and then no later turn of the flow places anything |
| `Laxity.StuckForEver` | Master/Python/scheduling.py:205-246 | once that holds for every flow with a cell pending, no later turn changes anything |
| `Laxity.FewPlacingTurns` | Master/Python/scheduling.py:205-246 | in every run at most channels times timeslots turns place something |
| `Laxity.EndsIff` | Master/Python/scheduling.py:205-246 | whatever rule takes the flows: the loop does not end if and only if from some turn on only flows that cannot be placed have turns while cells are pending |
| `Laxity.OrderIff` | Master/Python/scheduling.py:205-246 | when the loop has ended, the cells of every flow lie in path order, however often they occur, if and only if no search failed |
| `Laxity.SkippedIsDisordered` | Master/Python/scheduling.py:222-240 | why: a skipped cell that finds a slot later lands at or before a predecessor |
| `Laxity.RoomIsEnough` | Master/Python/scheduling.py:205-246 | with as many timeslots as cells behind the latest release no search fails, and every flow has at most one turn |
| `Laxity.EndsWithRoom` | Master/Python/scheduling.py:205-246 | so the loop ends |
| `Laxity.MeetingNeedsRoom` | Master/Python/scheduling.py:205-246 | if every two cells have a node in common, the loop can end only with a timeslot for every cell behind the earliest release |
| `Laxity.MeetingEndsIff` | Master/Python/scheduling.py:205-246 | for such flows released together the loop ends if and only if there is a timeslot for every cell behind the release |
| `Laxity.NeverDone` | Master/Python/scheduling.py:80-96 | a two-node flow with a window of five on the two timeslots that line 81 provides: C-LLF is unfinished after any number of rounds, and no deadline is missed |
| `Laxity.EndsOutOfOrder` | Master/Python/scheduling.py:205-246 | five cells of a four-node path on four timeslots: the loop ends, with the last hop out of order |
| `ReversedPlacement.SchedulableInSlot` | Master/Python/scheduling.py:30-42 | true exactly when some channel is empty and no participant is busy |
| `ReversedPlacement.AvailableChannel` | Master/Python/scheduling.py:24-28 | the first empty channel, if there is one |
| `ReversedPlacement.NextPosition` | Master/Python/scheduling.py:113-115 | the first timeslot from the insertion point and the offset of the flow on that can take the cell, with its first empty channel; none if and only if all are blocked |
| `ReversedPlacement.PlaceTracks` | Master/Python/scheduling.py:125-126 | the lists of busy nodes are exactly those of the cells in each timeslot |
| `ReversedPlacement.PlaceBackwards` | Master/Python/scheduling.py:106-131 | R-LPF places the cells of a flow from the last to the first, each into the first timeslot that can take it from that of the one before on, and strictly later where adjacent cells share a node; a missed deadline means that this timeslot is too late for the next cell, and no slot that none is left |
| `ReversedPlacement.ScheduleBackwards` | Master/Python/scheduling.py:97-131 | over all flows the grid stays free of conflicts and occupied channels stay a prefix; no cell lies before the sum of the periods of the instances of its flow that come directly before; each is in the first timeslot that can take it; an exception says which cell misses its deadline or finds no slot; with enough timeslots for the cells so far every cell is placed; the last timeslot noted is that of the latest cell |
| `ReversedPlacement.NotBefore` | Master/Python/scheduling.py:107-131 | no cell of an instance lies before its offset |
| `ReversedPlacement.ReverseGrid` | Master/Python/scheduling.py:254-260 | swapping in place up to the middle reverses every channel |
| `ReversedPlacement.FlipKeeps` | Master/Python/scheduling.py:254-260 | the reversed grid has no conflicts either |
| `ReversedPlacement.PathOrder` | Master/Python/scheduling.py:254-265 | after the reversal the retained cells of a flow occur in path order at strictly increasing timeslots |
| `ReversedPlacement.ScheduleReversed` | Master/Python/scheduling.py:97-260 | placement, choice of the last timeslot and reversal together: an index error exactly if the cycle is longer than the grid; else a grid without conflicts in which the cells of every flow lie in path order, mirrored; and none is cut off unless a cycle is given and deadlines are not enforced |
| `SlotAllocation.UsedMatrix` | Master/Python/scheduling.py:284-301 | the matrix mirrors the grid, and the count is that of wholly idle timeslots |
| `SlotAllocation.FirstFree` | Master/Python/scheduling.py:316-323 | the earliest timeslot from 1 on that is free on channel 0 |
| `SlotAllocation.LastFree` | Master/Python/scheduling.py:325-331 | the latest one |
| `SlotAllocation.AllocateSlots` | Master/Python/scheduling.py:305-334 | row i is complete if and only if 2i slots were free; complete rows nest |
| `SlotAllocation.FreeIsIdle` | Master/Python/scheduling.py:316-331 | free on channel 0 means free on every channel, because of the prefix |
| `SlotAllocation.EveryNodeServed` | Master/Python/scheduling.py:305-334 | with 2n free slots all n rows are complete, TX slots ascend, RX slots descend, every TX precedes every RX, and no flow uses any of them on any channel |
| `Slip.WriteToSerial` | tools/tunslip6.c:446-477 | the bytes written for a packet are its escaped form and one END |
| `Slip.RoundTrip` | os/dev/slip.c:139-206 | decoding an encoded packet gives the packet back with no escape open |
| `Slip.EncodeEscapes` | tools/tunslip6.c:446-476 | an encoded packet contains no END, and every ESC in it opens a valid escape |
| `Slip.PacketsInOrder` | os/dev/slip.c:124-331 | for any stream of non-empty packets and any interleaving of bytes and whole polls in which the ring never fills: the polls return the packets in order, and the ring holds exactly the bytes after them |
| `Slip.AllDelivered` | os/dev/slip.c:124-331 | when all was sent and no packet is buffered, every packet was returned |
| `Slip.InStepIffNeverFull` | os/dev/slip.c:301-306 | the ring holds exactly the bytes not yet returned, at every moment, if and only if it has room for every byte |
| `Slip.NextByte` | os/dev/slip.c:280-288 | in such a stream the automaton never meets a bad escape or an empty packet |
| `Slip.BadPacketDropped` | os/dev/slip.c:270-306 | a byte that is no escape code, behind an ESC, costs the packet it belongs to and what was buffered behind the first complete packet, and nothing else |
| `Slip.UnknownEscapeDropped` | os/dev/slip.c:139-206 | the decoder drops an ESC with a byte that is no escape code, and nothing else |
| `SlipReceiver.Receiver.constructor` | os/dev/slip.c:118-122 | an initialised ring in zeroed memory stores the empty queue |
| `SlipReceiver.Receiver.InputByte` | os/dev/slip.c:270-331 | the cyclic indices implement one step of the queue automaton, overflow, rubbish and stale memory included; a poll is requested exactly when a terminator is stored |
| `SlipReceiver.Receiver.CopyPacket` | os/dev/slip.c:131-206 | what the copying loops return for a packet of any length, straight or around the wrap; the output buffer is overrun, by one byte, if and only if the packet is too long for it |
| `SlipReceiver.CopyBoth` | os/dev/slip.c:164-206 | why: how the two loops compose when the length test breaks one of them off |
| `SlipReceiver.OutputFits` | os/dev/slip.c:140-160 | a packet that fits is returned as it is |
| `SlipReceiver.OutputTooLong` | os/dev/slip.c:140-160 | one that is a byte too long is returned all the same, a longer one that does not wrap is not returned |
| `SlipReceiver.Receiver.FindEnd` | os/dev/slip.c:213-236 | the next terminator up to the given limit is found, and another poll requested when a packet is complete |
| `SlipReceiver.Receiver.Remove` | os/dev/slip.c:208-236 | taking the packet off the ring is the queue operation, also when its terminator was given up |
| `SlipReceiver.Receiver.PollHandler` | os/dev/slip.c:124-241 | one uninterrupted poll takes the first packet off the queue, returns what the copying loops make of it, and asks for another poll exactly if a terminator is left |
| `SlipReceiver.Receiver.Finish` | os/dev/slip.c:213-236 | releasing the packet and searching up to a limit noted earlier is the operation on the queue, with bytes that have arrived since |
| `SlipReceiver.ProcessStaged` | os/dev/slip.c:124-331 | with bytes arriving between the steps of a poll, ring and packets handed on are those of the staged session |
| `SlipWindow.TakeLookCommit` | os/dev/slip.c:124-241 | the steps of a poll, with nothing in between, are the undivided poll |
| `SlipWindow.StaysOnTrack` | os/dev/slip.c:208-236 | with bytes arriving anywhere within polls: while no poll misses a terminator that came after it noted its limit, the packets are returned in order |
| `SlipWindow.MissIsForEver` | os/dev/slip.c:214-236 | once one is missed, a packet stays unseen or comes out merged with its successor |
| `SlipWindow.WindowsIff` | os/dev/slip.c:208-236 | when all was sent, no poll is under way and no packet is found in a ring that always had room: every packet was returned, in order, if and only if no poll missed a terminator |
| `SlipWindow.MergedPackets` | os/dev/slip.c:214-236 | a run in which the second and third packet come out as one |
| `SlipReceiver.Process` | os/dev/slip.c:243-331 | over any bytes and polls the packets handed on are those of the abstract session, with an output buffer that can take what the ring holds |
| `SlipReceiver.ProcessFrames` | os/dev/slip.c:243-331 | the same for a stream of frames, a ring that never fills and an output buffer that can take each packet; the packets handed on are the first ones sent, in order |
| `SlipLeading.LeadingEndsIff` | os/dev/slip.c:315-326 | for frames that also begin with an END, in a ring that never fills: every packet is returned, in order, if and only if every leading END finds the ring empty |
| `SlipLeading.LeadsInTurn` | os/dev/slip.c:315-326 | as long as they do, the polls return the packets in order |
| `SlipLeading.InTurnOrSpoilt` | os/dev/slip.c:315-326 | once one does not, its packet comes out too long or not at all, for ever |
| `SlipLeading.StrayByte` | os/dev/slip.c:208-236 | a run in which the second packet comes out with the END in front |
| `SlipLeading.HiddenPacket` | os/dev/slip.c:208-236 | a run in which it is not seen, because it already waits when the first one is polled |
| `SlipOverflow.DeliveredIff` | os/dev/slip.c:301-306 | for every stream of non-empty packets and every run, once all was sent and no packet is buffered: every packet was returned, in order, if and only if no byte found the ring full but possibly the very last one of the stream, with a packet waiting and one returned before |
| `SlipOverflow.ReceiveHope` | os/dev/slip.c:291-331 | no byte that is stored or dropped adds to the packets that are returned, waiting or still to come |
| `SlipOverflow.PollHope` | os/dev/slip.c:208-236 | nor does a poll |
| `SlipOverflow.RefusedHope` | os/dev/slip.c:301-306 | nor does a byte that finds the ring full; it costs one of them, unless the stale byte before the ring is a terminator |
| `SlipOverflow.TrackedStep` | os/dev/slip.c:270-331 | once a byte has been refused behind which the stream goes on, too few packets come, or one comes out short, or a search meets an END with nothing before it: every later byte and poll keeps that so |
| `SlipRuns.FullButDelivered` | os/dev/slip.c:301-306 | a run in which the ring fills up and yet every packet is returned |
| `SlipRuns.TwoPacketsLost` | os/dev/slip.c:301-306 | a run in which one packet is dropped and the next loses its first byte to the place of a terminator |
| `TrickleTimer.MaxImax` | os/lib/trickle-timer.c:97-153 | the largest number of doublings within half the clock range (generic variant), or strictly below it (fixed-width variants) |
| `TrickleTimer.FlavoursAgreeIff` | os/lib/trickle-timer.c:101-149 | the variants agree exactly on the values that no doubling takes to half the clock range, and else differ by one |
| `TrickleTimer.PairTestExact` | os/lib/trickle-timer.h:304-322 | the test on Imin and Imax fails exactly when Imin << Imax exceeds half the clock range |
| `TrickleTimer.Timer.Config` | os/lib/trickle-timer.c:330-374 | success exactly for 2 <= Imin < 2^(W-1) and non-zero Imax and k; then Imin << Imax <= 2^(W-1), with Imax kept if possible and else the largest; a running interval is left as it is |
| `TrickleTimer.Timer.GetT` | os/lib/trickle-timer.c:157-166 | a point in the second half of the interval |
| `TrickleTimer.DelayExactIff` | os/lib/trickle-timer.c:169-187 | the modular delay is the true one, or 0 for the past, exactly when the target is within half the clock range |
| `TrickleTimer.UntilExactIff` | os/lib/trickle-timer.c:169-187 | for a target not too far ahead, however late the call: the alarm is due at the target or at once if and only if the lateness, modulo the clock range, is at most half of it; it is never due early |
| `TrickleTimer.Timer.Set` | os/lib/trickle-timer.c:377-408 | a random interval between the bounds, and a new interval on it that fires in its second half; an error and no change without callback |
| `TrickleTimer.Timer.NewInterval` | os/lib/trickle-timer.c:288-303 | the interval starts now and fires at the drawn point |
| `TrickleTimer.Timer.ScheduleForEnd` | os/lib/trickle-timer.c:169-187 | the end alarm is due at the true end of the interval, or at once if that is past, if and only if the call is timely |
| `TrickleTimer.Timer.FireNow` | os/lib/trickle-timer.c:260-283 | may transmit exactly if fewer than k consistent messages were heard in the interval, however many were; the callback may keep, stop or reset the timer; then the end is scheduled unless it was stopped; called in time, as the ideal timer does |
| `TrickleTimer.Timer.DoubleInterval` | os/lib/trickle-timer.c:192-247 | length and start of the new interval are those of the ideal timer on unbounded time, however late the call; its alarm is so if and only if the call is timely |
| `TrickleTimer.Timer.Consistency` | os/lib/trickle-timer.c:308-314 | the saturating counter follows the true count |
| `TrickleTimer.Timer.Inconsistency` | os/lib/trickle-timer.c:317-327 | the interval is Imin afterwards; if it was not before, a new one begins now, with the counter at 0 and the alarm in its second half, and if it was, nothing changes |
| `TrickleTimer.StepKeeps` | os/lib/trickle-timer.c:192-408 | every event keeps Imin <= I <= Imin << Imax, a drawn t in [I/2, I), and alarms no earlier than their points |
| `TrickleTimer.RunKeeps` | os/lib/trickle-timer.c:192-408 | the same over every run |
| `TrickleTimer.UndisturbedRun` | os/lib/trickle-timer.c:192-247 | n undisturbed doublings give min(I * 2^n, Imax) with the start advanced by the sum of the intervals, and one transmission point in each interval, however late alarms run and however far the clock has them postponed |
| `TrickleTimer.AfterInconsistency` | os/lib/trickle-timer.c:192-327 | n undisturbed doublings after an inconsistency give min(Imin * 2^n, Imax), counted from then on |
| `TrickleTimer.ResetBegins` | os/lib/trickle-timer.c:317-327 | an inconsistency begins an interval of length Imin, or changes nothing in one |
| `TrickleTimer.AnswersAppend` | os/lib/trickle-timer.c:260-314 | over every run the protocol is told to transmit exactly if fewer than k consistent messages came since the interval began |
| `TrickleTimer.PlayInputs` | os/lib/trickle-timer.c:192-408 | the implementation, driven by any calls and by ctimer callbacks that come however late, makes such a run, with these answers; so undisturbed its interval and start are those |
| `HashMap.Table.Clear` | os/sys/hash-map.c:11-21 | the table is empty and well formed, whatever it held |
| `HashMap.Table.Lookup` | os/sys/hash-map.c:72-82 | the value last stored, or 0; for key 0 what lies in an unused first slot; terminates for every key |
| `HashMap.Table.Insert` | os/sys/hash-map.c:27-70 | for every key: what it does to the slots of any table whose chains end; with a right entry count it succeeds if and only if the key is present or fewer than N are; success stores that entry and disturbs no other, failure changes nothing; key 0 in an unused first slot stores nothing and raises the count by one, for good; the table stays well formed unless key 0 is put behind a used first slot |
| `HashMap.Table.Follow` | os/sys/hash-map.c:36-44 | the chain walk ends at the slot of the key or at the end of its chain, wherever chains end |
| `HashMap.Table.FindUnused` | os/sys/hash-map.c:48-68 | the two scans find the first unused slot from the hash code round, or there is none |
| `HashMap.Acyclic` | os/sys/hash-map.c:36-44 | links lead to later entries only, so no chain comes back or is longer than the number of entries |
| `HashMap.FilledKeeps` | os/sys/hash-map.c:49-58 | a new entry at the end of a merged chain keeps every entry reachable from its hash code |
| `HashMap.OverwriteKeeps` | os/sys/hash-map.c:38-41 | overwriting a value changes nothing else |
| `HashMap.HeadIsFree` | os/sys/hash-map.c:28-35 | an unused head means that the key is nowhere |
| `HashMap.RoomIff` | os/sys/hash-map.c:45-47 | a slot is unused exactly when fewer than N entries are stored |
| `HashMap.ZeroKeyMiscounts` | os/sys/hash-map.c:30-58 | wherever key 0 is put, no slot becomes used, and a chain then leads to an unused one |
| `HashMap.InsertsKeeps` | os/sys/hash-map.c:27-70 | every insertion but that of key 0 behind a used first slot keeps the table well formed, so its chains acyclic; and what each insertion means for the map |
| `HashMap.ZeroThenLoop` | os/sys/hash-map.c:48-54 | key 0 behind a used first slot, and then any new key of that chain with room in the count: the slot is linked to itself, and looking for any key that is not there does not end |
| `HashMap.LoopIff` | os/sys/hash-map.c:27-70 | after key 0 has been put behind a used first slot of a table with a right count, insertions can make a chain come back to where it was if and only if another slot was unused |
| `HashMap.SelfLink` | os/sys/hash-map.c:27-70 | the run with the keys 3, 0 and 6 on three slots: slot 1 is linked to itself, and looking for key 9 does not end |
| `HashMap.RefusedTooEarly` | os/sys/hash-map.c:27-47 | a run after which a table of two slots refuses an entry while one is stored |
| `CcmStar.Aead` | os/lib/ccm-star.c:150-171 | the message is encrypted or decrypted in place, and the tag is that of sections 2.2 and 2.3 of RFC 3610 on the plaintext |
| `CcmStar.ThereAndBack` | os/lib/ccm-star.c:150-171 | backward after forward restores the message and reproduces the tag |
| `CcmStar.Mic` | os/lib/ccm-star.c:82-127 | the tag is the truncated CBC-MAC of the formatted blocks, encrypted with key stream block 0 |
| `CcmStar.MacOfFormatted` | os/lib/ccm-star.c:92-122 | XORing short last blocks computes the CBC-MAC over B_0, the length-prefixed padded additional data and the padded message |
| `CcmStar.AbsorbIsCbc` | os/lib/ccm-star.c:103-110 | absorbing unpadded data is CBC over its zero-padded form |
| `CcmStar.AbsorbData` | os/lib/ccm-star.c:95-111 | the additional data with its two-byte length |
| `CcmStar.AbsorbRest` | os/lib/ccm-star.c:113-122 | the block loop with its 8-bit position |
| `CcmStar.Ctr` | os/lib/ccm-star.c:130-141 | each byte is XORed with its byte of the key stream from block 1 on |
| `CcmStar.CtrStep` | os/lib/ccm-star.c:64-79 | one block of key stream at a position |
| `CcmStar.SetIv` | os/lib/ccm-star.c:51-60 | flags, nonce and two-byte counter |
| `CcmStar.CryptTwice` | os/lib/ccm-star.c:130-141 | encryption undoes itself |
| `CcmStar.FlagsAgree` | os/lib/ccm-star.c:46-47 | the flags of block B_0 are those of RFC 3610 for every tag of two to sixteen bytes |
| `CcmStar.FlagsWithoutTag` | os/lib/ccm-star.c:46-47 | for tag length 0 the unsigned size wraps and the flags are 0xF9 |
| `CcmStar.LoopEndsIff` | os/lib/ccm-star.c:103-141 | with the 8-bit position the loops end exactly for messages up to 240 and additional data up to 254 bytes |

## Left out

- HeapMem.Heap.Alloc: the header of a chunk that a wrapped sum puts outside the arena is not written; that memory is not part of this model.
- HeapMem.Heap.Alloc: arenas of about half the address space and more, which compilers refuse, are excluded.
- HeapMem.Heap.Realloc: where its guard fails, the model ends with the pointer that is returned: a pointer formed outside the arena by split_chunk is undefined in C, and a copy to a block behind the footprint goes to memory that is not modelled. When a shrink of the last block by more than INT_MAX bytes is taken for a growth and another block is found, the copy beyond that block is not modelled.
- HeapMem.Heap.Free: pointers that are not live blocks are excluded, as the comment in the source demands of callers.
- Collection.WidestPaths: sequence numbers are unbounded and strengths real numbers.
- Scheduler.Schedule.ScheduleByLaxity: the laxity computation is not modelled, any released flow with a cell pending may have the turn; `Laxity.EndsIff` holds for each way to choose. The loop, which need not end, is run for a given number of rounds. In "enabled" mode it need not end either, and that mode is left out.
- ReversedPlacement.ScheduleBackwards: a cell for which no slot is left is an outcome of its own, where the source has an index error.
- SlipReceiver.Receiver.PollHandler: a poll is one step, as in all results on runs except those of `SlipWindow`. There a poll has three steps; a byte that is refused after the end of the search was noted, and one that arrives between the two halves of an index update, are not modelled.
- Slip.PacketsInOrder: XON/XOFF is off.
- TrickleTimer.Timer.Config: shifts by more than the width of the clock, undefined in C, are arithmetic.
- TrickleTimer.Timer.DoubleInterval: the variant without drift compensation is left out.
- CcmStar.Aead: lengths for which the loops do not end are excluded; `CcmStar.LoopEndsIff` gives the condition. The output of the tag into memory is a result, so overlapping buffers are not modelled.
- Sorting of flows by length, deadline or period: the order is taken as given.
- The wiring in Schedule.create: exponents on ETX, release times modulo the cycle, renumbering after infeasible flows, schedule attributes of cells.
- Rounding of ETX, PRR and strengths, which are real numbers here.
- Beacons, strength computation and data forwarding in neighbour data collection; the debug fields of chunk headers; the rest of tunslip6; AES itself; the ctimer library.
- Log parsing, C code generation, the schedulability experiments, drivers, list and buffer libraries: easier members or input and output.
