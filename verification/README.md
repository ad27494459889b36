# Verified models of Contiki-NG components

A Dafny model of parts of the Contiki-NG operating system and of the data-aggregation project in its tree, with proofs
of what they promise. `dafny verify dfyconfig.toml` checks all of it. Each module models one source file or one aspect
of it:

- `HeapLayout`, `HeapMem`: the allocator of `os/lib/heapmem.c`. The arena is a byte array; chunk headers are kept by
  arena offset, and every header store overwrites the header's bytes, so that damage to a payload would show. The
  `Blocks()` of a heap map the offset of each live chunk to its bytes; contracts speak of those. What a call does is a
  relation between the heap before and after it (`AllocStep`, `FreeStep`, `ReallocStep`).
- `HeapClient`: whole runs of the allocator, as a client sees them that keeps books of its pointers and of what it
  stored. Requests on pointers that the client does not hold are not made.
- `ObjectPool`, `Bitmap`, `NbrState`, `NbrTable`: the neighbour tables of `os/net/nbr-table.c` over `memb.c` and
  `list.c`. `Lookup` is the map from address to item that each table stands for.
- `NbrClient`: whole runs over all tables, as runs of a list of neighbour records. A client looks an item up by its
  address before it removes, locks, unlocks or stores into it.
- `SlipProtocol`, `SlipStream`, `Slip`: `os/dev/slip.c` as a byte protocol, as a state machine over streams of bytes
  and polls, and as the driver over its cyclic buffer. Framing follows the "PROTOCOL" section of RFC 1055.
- `RingBuf`, `SerialLine`: the lock-free ring of `os/lib/ringbuf.c`, with each access to shared memory a step of its
  own, and its client `os/dev/serial-line.c`, first over whole ring operations and then over those single steps.
- `CcmStar`: `os/lib/ccm-star.c` against sections 2.2 and 2.3 of RFC 3610, for any block cipher.
- `ClockTime`, `TrickleImax`, `TrickleTimer`: the wrapping clock, the range checks and `max_imax`, and the timer of
  `os/lib/trickle-timer.c` against a state machine for section 4.2 of RFC 6206 over unbounded time.
- `Etimer`: the timer list of `os/sys/etimer.c` with its restarting poll.
- `QueuebufSwap`: the swap ids of `os/net/queuebuf.c`.
- `Crc16`: `os/lib/crc16.c` against the bitwise CRC.
- `Aggregation`: the running statistics of `source.c` and the weighted mean of `aggregator.c`.
- `Arithmetic`, `Lists`, `Options`: shared helpers.

Points where the code differs from its documentation or from what one would expect, all modelled as the code has them:

- The macro `IN_HEAP` in `heapmem.c` has no outer parentheses, so `!IN_HEAP(ptr)` negates its first comparison only.
  `OutsideCheckExact` says for which pointers the guard still works.
- A block that `heapmem_realloc` moves is charged to its zone anew while its old charge stays; `ReallocRoom` says
  what is charged. One that can neither stay nor move has still taken in the free chunks after it (`Resettled`).
- `slip_input_byte` stores a leading END as data when a frame is already buffered, so frames written back to back can
  stall the receiver (`BackToBack`) and come out later with their ENDs in them (`StrayCorrupts`), and an error then
  rewinds in front of the END of the buffered frame (`ErrorRewinds`). The delivery theorems are for streams in which
  an END ends a frame or meets an empty ring.
- `slip_poll_handler` compares with `len > blen`, so of a payload longer than `blen` it writes one byte past it, and
  it hands on a payload of `blen + 1` bytes (`OneByteTooFar`, `DeliveredExact`). `PollHandler` asks for just the room
  that the frame needs (`Roomy`); `RoomyExact` says exactly when a buffer has it.
- `trickle_timer_config` refuses k = 0, although the header documents it as "no suppression", and it refuses an Imin
  of exactly half the clock range, which its comment allows. The adjusted Imax may be 0.
- The 16- and 32-bit flavours of `max_imax` omit the decrement of the generic one, so for an Imin that is a power of
  two they give up one doubling that would fit (`MaxImaxFixed`).
- `update_distribution` subtracts the oldest sample one step before its slot is overwritten. Once the window is full
  the sums cover WINDOW_SIZE - 1 samples and the divisor is WINDOW_SIZE, as if one sample were zero (`Window`);
  `MeanExactIff` and `VarianceExactIff` say when that makes no difference.
- A round of the aggregator that ends by its timer mixes in what is still stored of the nodes it has not heard
  (`StaleRound`). `RoundBetween` says exactly when what it sends on still lies between the samples heard.
- `nbr_table_lock` takes an item whose neighbour has left the list. The lock then stays with the slot and falls to the
  next neighbour that gets it (`StaleLock`, `NewcomerLocks`); `LockKeepsIff` says when locking is safe. The runs of
  `NbrClient` lock only what a lookup gives.
- The header of the Trickle timer asks for wide random numbers when I > 0x1FFFF; 16-bit ones do up to 0x20001
  (`NarrowRandomSuffices`). No random number draws the last point of an odd interval (`DrawReaches`).
- `timer_expired` adds one before it compares, so that a timer with the longest interval never counts as expired and
  `update_time` can wait for one in vain (`LongestNeverExpires`, `NearestWakes`).
- A block can be longer than the size that its zone was charged with, and freeing it gives all of it back
  (`AllocFreeRoom`).
- A file that becomes empty while the next swap id is its first one is not marked renewable; it is entered as it is.

## Model

| member | source | states |
|---|---|---|
| `HeapLayout.TilesExactly` | contiki-ng/os/lib/heapmem.c:101-104 | every used byte of the arena belongs to exactly one chunk |
| `HeapLayout.MergedTiled` | contiki-ng/os/lib/heapmem.c:255-265 | merging a free chunk with the free chunks after it keeps the tiling |
| `HeapLayout.SplitTiled` | contiki-ng/os/lib/heapmem.c:237-251 | cutting a chunk in two keeps the tiling |
| `HeapLayout.SplitOutcomeTiled` | contiki-ng/os/lib/heapmem.c:237-251 | whichever branch split_chunk and free_chunk take, the result tiles the used prefix |
| `HeapLayout.SplitOutcomeKeeps` | contiki-ng/os/lib/heapmem.c:237-251 | a split touches no chunk but the one cut and the new one |
| `HeapLayout.AppendTiled` | contiki-ng/os/lib/heapmem.c:402-406 | a chunk made from the unused tail keeps the tiling |
| `HeapLayout.ShrinkLastTiled` | contiki-ng/os/lib/heapmem.c:199-201 | releasing the end of the last chunk shortens the used prefix and keeps the tiling |
| `HeapLayout.GrowLastTiled` | contiki-ng/os/lib/heapmem.c:539-549 | extending the last chunk keeps the tiling |
| `HeapLayout.FullyMergedIsMaximal` | contiki-ng/os/lib/heapmem.c:269-280 | after coalescing, each free chunk is a maximal run of the free chunks there were before |
| `HeapLayout.MaximalIsFullyMerged` | contiki-ng/os/lib/heapmem.c:269-280 | each maximal run of free chunks before coalescing is one free chunk after it |
| `HeapLayout.SmallestChunkIsBestFit` | contiki-ng/os/lib/heapmem.c:285-320 | the smallest fitting chunk of the coalesced heap is the smallest maximal free run that fits in the heap before |
| `HeapLayout.NoChunkNoRun` | contiki-ng/os/lib/heapmem.c:285-320 | no fitting chunk after coalescing means that no merged run of free chunks fits |
| `HeapLayout.RunEndUnique` | contiki-ng/os/lib/heapmem.c:255-265 | coalescing goes on to exactly one offset, where the free chunks after the block end |
| `HeapLayout.LastFree` | contiki-ng/os/lib/heapmem.c:237-320 | in a coalesced heap, the free chunk that no live one lies above is the last one |
| `HeapLayout.SplitKeepsInUse` | contiki-ng/os/lib/heapmem.c:237-251 | a split of free space changes no block in use, leaves the wanted size or at most a header more, and ends the used prefix there if it was the last chunk |
| `HeapLayout.LiveBytesExact` | contiki-ng/os/lib/heapmem.c:586-601 | the tally of heapmem_stats is the number of arena bytes that belong to the payload of an allocated chunk |
| `HeapMem.Heap.constructor` | contiki-ng/os/lib/heapmem.c:168-173 | the empty heap: nothing used, nothing on the free list, the general zone with the whole arena as its limit and no other zone registered |
| `HeapMem.Heap.ExtendSpace` | contiki-ng/os/lib/heapmem.c:180-191 | the old end of the used prefix, or nothing and no change if the tail is too short |
| `HeapMem.Heap.FreeChunk` | contiki-ng/os/lib/heapmem.c:194-211 | the last chunk leaves the used prefix, any other goes in front of the free list, which stays well linked |
| `HeapMem.Heap.RemoveFromFreeList` | contiki-ng/os/lib/heapmem.c:215-230 | the list loses that chunk only and prev stays inverse to next |
| `HeapMem.Heap.CoalesceChunks` | contiki-ng/os/lib/heapmem.c:255-265 | the chunk takes in exactly the free chunks up to the next live one or the end, and they leave the list |
| `HeapMem.Heap.DefragChunks` | contiki-ng/os/lib/heapmem.c:269-280 | with at most SEARCH_MAX free chunks, everything that can merge is merged and all live blocks keep their bytes |
| `HeapMem.Heap.SplitChunk` | contiki-ng/os/lib/heapmem.c:237-251 | the chunk keeps the aligned size; the rest becomes free if it can hold a header and more |
| `HeapMem.Heap.FindBest` | contiki-ng/os/lib/heapmem.c:290-311 | the smallest chunk that fits among those searched, or none if none fits |
| `HeapMem.Heap.GetFreeChunk` | contiki-ng/os/lib/heapmem.c:284-320 | defragments, and hands out the best fit off the free list, cut to the size asked for or at most a header more; where the used prefix then ends |
| `HeapMem.Heap.ZoneAlloc` | contiki-ng/os/lib/heapmem.c:379-423 | fails outside the zone limit; otherwise takes the smallest merged run that fits, or the tail, and fails exactly when neither suffices; the block is cut to size; live blocks keep bytes and zones, a refusal changes no block and charges nothing; where the used prefix ends |
| `HeapMem.Heap.TakeBlock` | contiki-ng/os/lib/heapmem.c:400-409 | the allocation past the zone check: where the block goes, how large it is, and that all others stay |
| `HeapMem.Heap.Charge` | contiki-ng/os/lib/heapmem.c:419 | the bytes charged to a zone grow modulo the size of size_t |
| `HeapMem.Heap.Free` | contiki-ng/os/lib/heapmem.c:441-464 | true for a live block, which is gone, uncharged, and given to the unused tail if it was the last chunk; false and nothing changed otherwise |
| `HeapMem.Heap.Shrink` | contiki-ng/os/lib/heapmem.c:530-536 | the rest is cut off exactly when it can hold a header and more; the block keeps its first bytes, the others all of theirs |
| `HeapMem.Heap.ExtendLast` | contiki-ng/os/lib/heapmem.c:545-549 | the last block is extended in place exactly when the unused tail holds the difference; otherwise nothing changed |
| `HeapMem.Heap.GrowInto` | contiki-ng/os/lib/heapmem.c:555-557 | the block takes in exactly the free chunks up to the next live one or the end, and keeps its bytes |
| `HeapMem.Heap.MergeAndCut` | contiki-ng/os/lib/heapmem.c:550-564 | the block stays, cut to size, exactly if it and the free chunks after it suffice; otherwise it keeps what it took in |
| `HeapMem.Heap.ResizeInPlace` | contiki-ng/os/lib/heapmem.c:527-564 | succeeds exactly if the block holds enough, the tail suffices for a last block, or the free chunks after another one do; how large the block is then and what heap a failure leaves |
| `HeapMem.Heap.Resize` | contiki-ng/os/lib/heapmem.c:516-581 | the block stays exactly when it fits in place; otherwise it goes where an allocation in the merged heap puts it, or NULL when that finds nothing, the block then grown for nothing; first min(old, new) bytes kept, all other blocks unchanged; exact zone counters, with the old charge left behind by a move |
| `HeapMem.Heap.Move` | contiki-ng/os/lib/heapmem.c:572-580 | after growth in place failed: a new block placed in the merged heap, the bytes copied, the old chunk freed; NULL exactly when no new block is found |
| `HeapMem.Heap.CopyBlock` | contiki-ng/os/lib/heapmem.c:577 | the copy fills the new block and touches no other |
| `HeapMem.Heap.Realloc` | contiki-ng/os/lib/heapmem.c:488-581 | NULL, size zero, too large, freed and live pointers: when a block is returned and where, which blocks remain with which contents, and what the zone is charged |
| `HeapMem.Heap.OutsideCheckExact` | contiki-ng/os/lib/heapmem.c:175-176 | the unparenthesised guard is right exactly for pointers below the end of the used prefix; it rejects those below the arena only |
| `HeapMem.AllocTakesRoom` | contiki-ng/os/lib/heapmem.c:394-419 | an allocation leaves its zone exactly a header and the aligned size less room, without a wrap, and no other zone changes |
| `HeapMem.FreeGivesRoom` | contiki-ng/os/lib/heapmem.c:460-462 | freeing gives the zone the header and the size of the block back, modulo the size of size_t |
| `HeapMem.AllocFreeRoom` | contiki-ng/os/lib/heapmem.c:419-462 | allocating and freeing again leaves the zone as much more room as the block was longer than the size asked for |
| `HeapMem.ReallocRoom` | contiki-ng/os/lib/heapmem.c:527-580 | a block that stays gives or takes the difference of the sizes; one that moves takes room for a new block and gives none back; NULL charges nothing |
| `HeapMem.Heap.GetStats` | contiki-ng/os/lib/heapmem.c:586-607 | allocated counts the bytes of live payloads, overhead a header for each live block; with available and the free headers they add up to the arena size; the walk merges free chunks and changes no live block |
| `HeapMem.Heap.PayloadsDisjoint` | contiki-ng/os/lib/heapmem.c:106-111 | payloads of live blocks lie in the used prefix and are pairwise disjoint |
| `HeapMem.Heap.FreeListExact` | contiki-ng/os/lib/heapmem.c:150-165 | the free list holds exactly the chunks whose allocated flag is clear, each once, prev inverse to next |
| `HeapMem.Heap.UsedPrefixTiled` | contiki-ng/os/lib/heapmem.c:101-104 | chunks tile exactly the used prefix, which is no longer than the arena |
| `HeapClient.StepHonoured` | contiki-ng/os/lib/heapmem.c:379-607 | a permitted request keeps the client's books and the heap in agreement, and a pointer handed out is new |
| `HeapClient.RunHonoured` | contiki-ng/os/lib/heapmem.c:379-607 | throughout any run the live blocks are exactly those the client was given and has not given back, each with the size asked for and the bytes last written |
| `HeapClient.LeasesApart` | contiki-ng/os/lib/heapmem.c:106-111 | blocks that a client holds at the same time never overlap |
| `HeapClient.Run` | contiki-ng/os/lib/heapmem.c:379-607 | any script of allocations, frees, reallocations, statistics and stores is served as a run in which every reply, refusals too, is the one the heap before the request calls for |
| `ObjectPool.Memb.Alloc` | contiki-ng/os/lib/memb.c:59-75 | the first free block, or NULL exactly when there is none |
| `ObjectPool.Memb.Free` | contiki-ng/os/lib/memb.c:78-98 | frees exactly the block pointed to; -1 and no change otherwise |
| `ObjectPool.Memb.NumFree` | contiki-ng/os/lib/memb.c:107-119 | the number of free blocks |
| `ObjectPool.List.Tail` | contiki-ng/os/lib/list.c:75-86 | the last item, or NULL for the empty list |
| `ObjectPool.List.Remove` | contiki-ng/os/lib/list.c:152-175 | the list without the item, order kept |
| `ObjectPool.List.Add` | contiki-ng/os/lib/list.c:89-105 | the item at the end, once, whether or not it was on the list |
| `ObjectPool.List.ItemNext` | contiki-ng/os/lib/list.c:203-206 | the item after the given one, or NULL after the last |
| `Bitmap.ChangeBit` | contiki-ng/os/net/nbr-table.c:154-170 | one bit set or cleared, all others of the byte unchanged |
| `Bitmap.CountBits` | contiki-ng/os/net/nbr-table.c:215-222 | the shifting loop counts the tables in the bitmap |
| `NbrTable.ItemRoundTrip` | contiki-ng/os/net/nbr-table.c:77-115 | slot to item and back is the identity |
| `NbrTable.ItemsDistinct` | contiki-ng/os/net/nbr-table.c:84-88 | distinct slots have distinct items |
| `NbrTable.NbrTables.constructor` | contiki-ng/os/net/nbr-table.c:56-71 | no neighbours, no tables, all slots free |
| `NbrTable.NbrTables.Register` | contiki-ng/os/net/nbr-table.c:330-355 | a new table gets the next index with its callback, a registered one a new callback, a ninth is refused |
| `NbrTable.NbrTables.SetUsed` | contiki-ng/os/net/nbr-table.c:154-170 | the used bit of one slot and one table |
| `NbrTable.NbrTables.SetLocked` | contiki-ng/os/net/nbr-table.c:154-170 | the locked bit of one slot and one table |
| `NbrTable.NbrTables.IndexFromLladdr` | contiki-ng/os/net/nbr-table.c:119-136 | the slot of the address, or -1 exactly when no listed neighbour has it |
| `NbrTable.NbrTables.GetFromLladdr` | contiki-ng/os/net/nbr-table.c:454-458 | the item that the table's map holds for the address, or NULL |
| `NbrTable.NbrTables.UsedCount` | contiki-ng/os/net/nbr-table.c:210-225 | how many tables use the neighbour |
| `NbrTable.NbrTables.GcGetWorst` | contiki-ng/os/net/nbr-table.c:228-231 | the address that fewer tables use, the first on a tie; an unknown one is used by none |
| `NbrTable.NbrTables.SelectForRemoval` | contiki-ng/os/net/nbr-table.c:242-269 | an unlocked neighbour of least use, the earliest among equals; none exactly when all are locked |
| `NbrTable.NbrTables.EntryIsAllowed` | contiki-ng/os/net/nbr-table.c:272-296 | when an entry is allowed and which neighbour must go for it |
| `NbrTable.NbrTables.NotifyTables` | contiki-ng/os/net/nbr-table.c:175-184 | one callback for each table with one that uses the neighbour, no other |
| `NbrTable.NbrTables.RemoveKey` | contiki-ng/os/net/nbr-table.c:173-194 | callbacks made, bitmaps cleared, off the list, and freed if asked |
| `NbrTable.NbrTables.Allocate` | contiki-ng/os/net/nbr-table.c:306-325 | a free slot, or the slot of the neighbour to be evicted |
| `NbrTable.NbrTables.AddLladdr` | contiki-ng/os/net/nbr-table.c:397-450 | fails with no change exactly when the address is new, the pool full and every neighbour locked; otherwise the exact new state, evicting the worst unlocked neighbour with its callbacks if there was no room |
| `NbrTable.NbrTables.MakeRoom` | contiki-ng/os/net/nbr-table.c:419-437 | a new key in a free slot or in that of the evicted neighbour |
| `NbrTable.NbrTables.Remove` | contiki-ng/os/net/nbr-table.c:462-467 | the neighbour leaves this table, and a lock for this table goes; nothing else changes |
| `NbrTable.NbrTables.Lock` | contiki-ng/os/net/nbr-table.c:470-478 | this table is added to those that lock the slot, listed or not, and nothing else changes; that leaves only listed slots locked exactly if the slot is listed |
| `NbrTable.NbrTables.Unlock` | contiki-ng/os/net/nbr-table.c:482-489 | unlocks the slot for this table only, listed or not |
| `NbrTable.NbrTables.Clear` | contiki-ng/os/net/nbr-table.c:500-507 | no neighbours left, each table that used one called back once for it, in list order; locks of slots that were not listed stay |
| `NbrTable.StaleLock` | contiki-ng/os/net/nbr-table.c:429-506 | a lock through a pointer kept over nbr_table_clear makes the next neighbour in the slot one that cannot be evicted |
| `NbrTable.NbrTables.Next` | contiki-ng/os/net/nbr-table.c:384-393 | the table's next item in list order, or NULL when there is none |
| `NbrTable.NbrTables.Head` | contiki-ng/os/net/nbr-table.c:370-380 | the table's first item in list order |
| `NbrTable.NbrTables.Enumerate` | contiki-ng/os/net/nbr-table.c:370-393 | head and next visit each item of the table once, in list order, even if the current one is removed on the way |
| `NbrState.AddressesDistinct` | contiki-ng/os/net/nbr-table.c:397-437 | listed neighbours have pairwise distinct addresses |
| `NbrState.Conservation` | contiki-ng/os/net/nbr-table.c:306-325 | list length plus free slots is the size of the pool |
| `NbrState.IndexOfExact` | contiki-ng/os/net/nbr-table.c:119-136 | with distinct addresses the slot found is the only one |
| `NbrState.EvictInv` | contiki-ng/os/net/nbr-table.c:173-194 | evicting keeps the invariant |
| `NbrState.EnterInv` | contiki-ng/os/net/nbr-table.c:429-437 | entering a new address keeps the invariant |
| `NbrState.MarkInv` | contiki-ng/os/net/nbr-table.c:443-444 | using a slot keeps the invariant |
| `NbrState.EvictLookup` | contiki-ng/os/net/nbr-table.c:185-189 | an evicted address leaves every table's map, all other entries stay |
| `NbrState.EnterLookup` | contiki-ng/os/net/nbr-table.c:429-437 | a new neighbour is in no table yet |
| `NbrState.MarkLookup` | contiki-ng/os/net/nbr-table.c:443-444 | the address enters this table's map with a cleared item, no other map changes |
| `NbrState.UnmarkLookup` | contiki-ng/os/net/nbr-table.c:462-467 | the address leaves this table's map, no other map changes |
| `NbrState.LockKeepsIff` | contiki-ng/os/net/nbr-table.c:470-478 | locking leaves only listed slots locked exactly if the slot is listed |
| `NbrState.AddLocks` | contiki-ng/os/net/nbr-table.c:397-450 | adding leaves only listed slots locked |
| `NbrState.NewcomerLocks` | contiki-ng/os/net/nbr-table.c:429-444 | a new neighbour in a free slot starts out with the locks the slot has, and cannot be evicted while it has any; in the slot of an evicted one it starts out unlocked |
| `NbrState.AddLookup` | contiki-ng/os/net/nbr-table.c:397-450 | the whole effect of an add on every table's map from address to item |
| `NbrState.WorstNext` | contiki-ng/os/net/nbr-table.c:250-261 | one turn of the search for the worst neighbour |
| `NbrState.CallsExact` | contiki-ng/os/net/nbr-table.c:175-184 | exactly the tables that use the slot and have a callback are called back, once each, in table order |
| `NbrState.SlotsFromExact` | contiki-ng/os/net/nbr-table.c:384-393 | the enumeration is the key list without the neighbours that the table does not use, none twice |
| `NbrClient.AddMaps` | contiki-ng/os/net/nbr-table.c:397-450 | adding gives the address a cleared item in its table and takes an evicted address out of all tables; no other entry of any table changes |
| `NbrClient.ChangeMaps` | contiki-ng/os/net/nbr-table.c:462-489 | removing, locking, unlocking and storing change the map of their own table at their own address only, or nothing |
| `NbrClient.RunMaps` | contiki-ng/os/net/nbr-table.c:397-506 | throughout any run, interleaved over the tables in any way, each table behaves as a map from address to item |
| `NbrClient.RunApart` | contiki-ng/os/net/nbr-table.c:397-506 | throughout any run no address is listed twice |
| `NbrClient.AddKeepsLocks` | contiki-ng/os/net/nbr-table.c:397-450 | an add changes no lock of any table on any address: a neighbour that is evicted has none |
| `NbrClient.ChangeLocks` | contiki-ng/os/net/nbr-table.c:462-489 | locking, unlocking and removing change the lock of their own table on their own address only; a store changes none |
| `NbrClient.RunLocks` | contiki-ng/os/net/nbr-table.c:397-506 | throughout any run, from the requests and replies alone: a table locks a neighbour exactly if the last granted request that concerns this lock is one for it |
| `NbrClient.RunEvictsUnlocked` | contiki-ng/os/net/nbr-table.c:242-325 | throughout any run an add never evicts a neighbour that some table locks in that sense |
| `NbrClient.RunRefusesIff` | contiki-ng/os/net/nbr-table.c:242-325 | throughout any run an add is refused exactly if the address is new, the list full and every neighbour locked by some table in that sense |
| `NbrClient.LookupAgrees` | contiki-ng/os/net/nbr-table.c:454-459 | a lookup in the pool finds what the list of records shows |
| `NbrClient.AddRefines` | contiki-ng/os/net/nbr-table.c:397-450 | an add to the pool with its slots and bitmaps is the add to the list of records, with the same neighbour evicted |
| `NbrClient.Run` | contiki-ng/os/net/nbr-table.c:397-506 | any script of requests for registered tables is served as a run of the list of records |
| `SlipProtocol.EscapeRoundTrip` | contiki-ng/os/dev/slip.c:101-112 | unescaping an escaped packet gives it back, and the escaped form has no END |
| `SlipProtocol.EscapeCodes` | contiki-ng/os/dev/slip.c:38-41 | END and ESC are sent as the two bytes that RFC 1055 gives for them, every other byte as itself |
| `SlipProtocol.ScanSplit` | contiki-ng/os/dev/slip.c:171-215 | decoding in two parts is decoding in one, while the size check does not strike |
| `SlipProtocol.DeliveredWhole` | contiki-ng/os/dev/slip.c:147-215 | a frame whose payload fits is decoded whole, wherever the ring wraps |
| `SlipProtocol.RoomyExact` | contiki-ng/os/dev/slip.c:135-160 | decoding stays within an output buffer exactly if that is longer than blen or the payload fits in it; with just blen bytes, exactly if the payload has at most blen |
| `SlipProtocol.DeliveredExact` | contiki-ng/os/dev/slip.c:136-207 | a frame is delivered whole exactly if its payload is at most one byte longer than blen |
| `SlipStream.ByteStep` | contiki-ng/os/dev/slip.c:269-330 | an admissible byte extends the frame, completes it, or is an idle END |
| `SlipStream.PollStep` | contiki-ng/os/dev/slip.c:217-241 | a poll with a frame buffered removes exactly the first one |
| `SlipStream.StreamDelivers` | contiki-ng/os/dev/slip.c:125-330 | for every admissible run: delivered payloads followed by buffered ones are what a decoder of RFC 1055 makes of the bytes |
| `SlipStream.DeliversReference` | contiki-ng/os/dev/slip.c:125-330 | from the initial state, the payloads delivered and those of the frames in the ring are what the reference decoder makes of the bytes, and the ring holds these frames and its unfinished one |
| `SlipStream.RefOfWire` | contiki-ng/os/dev/slip.c:93-115 | the reference decoder inverts slip_write for any packets |
| `SlipStream.EndToEnd` | contiki-ng/os/dev/slip.c:93-330 | packets sent with slip_write come out of the polls in order, up to those whose frames are exactly what the ring holds |
| `SlipStream.WriteResult` | contiki-ng/os/dev/slip.c:93-115 | what a slip_write leaves in the receiver's ring, with and without frames buffered |
| `SlipStream.StuckPolls` | contiki-ng/os/dev/slip.c:209-241 | a stray END behind the buffered frames stops the polls once those are delivered, and stays in the ring |
| `SlipStream.BackToBack` | contiki-ng/os/dev/slip.c:269-330 | a packet written while frames are buffered is delivered by the polls that follow exactly if none was buffered |
| `SlipStream.StrayCorrupts` | contiki-ng/os/dev/slip.c:269-330 | the packet written next makes a poll hand on the stranded packet with both its ENDs as a payload, and itself comes through |
| `SlipStream.ErrorRewinds` | contiki-ng/os/dev/slip.c:284-307 | an invalid escape or overflow discards the partial frame; the buffered frames survive exactly if there are none |
| `SlipStream.Resynchronises` | contiki-ng/os/dev/slip.c:269-330 | after an error with nothing buffered, bytes up to the next END are dropped and the next frame that fits is decoded exactly |
| `Slip.SlipDriver.RxbufInit` | contiki-ng/os/dev/slip.c:117-122 | the empty ring in state OK |
| `Slip.SlipDriver.InputByte` | contiki-ng/os/dev/slip.c:269-330 | the new ring contents, mark and state for every byte in every state; 1 exactly when an END is stored |
| `Slip.SlipDriver.AddChar` | contiki-ng/os/dev/slip.c:297-330 | storing a byte: full ring, END of a frame, END of nothing |
| `Slip.SlipDriver.DecodeLoop` | contiki-ng/os/dev/slip.c:136-160 | the loop over one stretch of the ring decodes it |
| `Slip.SlipDriver.DecodeFrame` | contiki-ng/os/dev/slip.c:134-207 | both layouts of the frame are decoded as one string of bytes |
| `Slip.SlipDriver.FindEnd` | contiki-ng/os/dev/slip.c:221-236 | the first END from there on, going round, or the end of the data |
| `Slip.SlipDriver.PollHandler` | contiki-ng/os/dev/slip.c:124-241 | the frame decoded and removed, the next one marked, and a poll requested for it; without its END, the frame is decoded and the ring counts as full of old bytes that end with it |
| `Slip.SlipDriver.Serve` | contiki-ng/os/dev/slip.c:244-262 | the process over any admissible run hands on what the reference decoder makes of the bytes, but for the frames that the ring then holds |
| `Slip.OneByteTooFar` | contiki-ng/os/dev/slip.c:55-241 | with RX_BUFSIZE = blen + 16, a packet of blen + 1 bytes comes through the ring, is written to the last byte and handed on, for which a buffer of blen bytes has no room |
| `Slip.Transmitter.Write` | contiki-ng/os/dev/slip.c:93-115 | what goes out is END, the escaped packet, END |
| `RingBuf.MaskIsMod` | contiki-ng/os/lib/ringbuf.c:64 | the mask takes the remainder, of negative differences too |
| `RingBuf.MaskedDistance` | contiki-ng/os/lib/ringbuf.c:64 | masking the difference of the indices counts the bytes in the ring |
| `RingBuf.MaskedNext` | contiki-ng/os/lib/ringbuf.c:75 | masking the incremented index wraps it |
| `RingBuf.PutRefines` | contiki-ng/os/lib/ringbuf.c:53-77 | each step of a put is invisible or a FIFO step, whatever the consumer did in between |
| `RingBuf.GetRefines` | contiki-ng/os/lib/ringbuf.c:80-110 | each step of a get is invisible or a FIFO step, whatever the producer did in between |
| `RingBuf.AnyInterleaving` | contiki-ng/os/lib/ringbuf.c:53-110 | every interleaving of producer and consumer steps is a run of a FIFO of capacity size - 1, with refusals that were true at a step of the call |
| `RingBuf.FifoConserves` | contiki-ng/os/lib/ringbuf.c:53-110 | bytes come out in order, none lost or repeated |
| `RingBuf.InOrder` | contiki-ng/os/lib/ringbuf.c:53-110 | from an empty ring, the bytes got are a prefix of the bytes accepted, at most size - 1 behind |
| `RingBuf.RingBuffer.constructor` | contiki-ng/os/lib/ringbuf.c:44-50 | an empty ring over the caller's buffer |
| `RingBuf.RingBuffer.Put` | contiki-ng/os/lib/ringbuf.c:53-77 | accepted exactly if the ring is not full, then the byte is last; and the call is three steps of the machine |
| `RingBuf.RingBuffer.Get` | contiki-ng/os/lib/ringbuf.c:80-110 | the oldest byte, or -1 exactly if there is none |
| `RingBuf.RingBuffer.Elements` | contiki-ng/os/lib/ringbuf.c:119-122 | the number of bytes in the ring |
| `RingBuf.RingBuffer.Size` | contiki-ng/os/lib/ringbuf.c:113-116 | the size, which is more than the ring ever holds |
| `SerialLine.SplitExact` | contiki-ng/os/dev/serial-line.c:64-126 | the lines of a stream are what lies between its newlines and carriage returns, which put back make up the stream |
| `SerialLine.InputLine` | contiki-ng/os/dev/serial-line.c:64-85 | what enters the ring is, line by line, a prefix of a line of the input, also through overflow |
| `SerialLine.ConsumeLine` | contiki-ng/os/dev/serial-line.c:97-126 | the process posts the lines it sees, cut to BUFSIZE - 1 bytes |
| `SerialLine.PostedLinesAreInputLines` | contiki-ng/os/dev/serial-line.c:64-126 | every interleaving: posted lines are prefixes of input lines at strictly increasing positions, and the write index stays in range |
| `SerialLine.FineStepRefines` | contiki-ng/os/dev/serial-line.c:64-126 | each single access to the ring's memory completes one event of the coarse machine or is invisible to it |
| `SerialLine.FineLinesAreInputLines` | contiki-ng/os/dev/serial-line.c:64-126 | the same for every interleaving of the single accesses that the interrupt and the process make inside the ring operations |
| `SerialLine.NoOverflowNoLoss` | contiki-ng/os/dev/serial-line.c:64-126 | without a refused byte the posted lines are the first input lines, each cut to its first BUFSIZE - 1 bytes, and all of them once the ring is empty |
| `SerialLine.OverflowEnds` | contiki-ng/os/dev/serial-line.c:74-80 | overflow ends exactly with a terminator that fits, and the line after it is whole again |
| `SerialLine.SerialDriver.InputByte` | contiki-ng/os/dev/serial-line.c:64-85 | the new ring contents and overflow flag |
| `SerialLine.SerialDriver.ProcessTurn` | contiki-ng/os/dev/serial-line.c:97-126 | one byte taken, appended, dropped or turned into a posted line |
| `CcmStar.CtrInvolution` | contiki-ng/os/lib/ccm-star.c:136-147 | counter-mode encryption undoes itself |
| `CcmStar.BlocksInjective` | contiki-ng/os/lib/ccm-star.c:87-128 | different nonces, messages, additional data or MIC lengths give different authentication blocks |
| `CcmStar.KeyBlocksApart` | contiki-ng/os/lib/ccm-star.c:69-84 | key-stream inputs are distinct and never the first authentication block |
| `CcmStar.IvBlockExact` | contiki-ng/os/lib/ccm-star.c:56-65 | set_iv makes the only block that holds the flags, the nonce and, as a number with its high byte first, the counter |
| `CcmStar.AuthFlagsBits` | contiki-ng/os/lib/ccm-star.c:46 | bit 6 says whether there is additional data, bits 5 to 3 are (M - 2) / 2, bits 2 to 0 are 1 |
| `CcmStar.CountedExact` | contiki-ng/os/lib/ccm-star.c:100-106 | the additional data goes in with its length in front, high byte first, and without data nothing does |
| `CcmStar.PadExact` | contiki-ng/os/lib/ccm-star.c:109-127 | whole blocks are filled up with the fewest zeros |
| `CcmStar.CtrExact` | contiki-ng/os/lib/ccm-star.c:69-84 | the ciphertext is the only one of which byte k is masked with byte k % 16 of the cipher of the block that holds flags 1, the nonce and the number k / 16 + 1 |
| `CcmStar.PartsExact` | contiki-ng/os/lib/ccm-star.c:87-128 | only the blocks that the code lays out hold what section 2.2 of RFC 3610 asks for |
| `CcmStar.MicExact` | contiki-ng/os/lib/ccm-star.c:87-133 | the MIC is the only sequence of bytes that is the CBC-MAC over blocks laid out as section 2.2 asks, masked with the cipher of A_0 |
| `CcmStar.XorUndone` | contiki-ng/os/lib/ccm-star.c:131 | masking with the same block twice changes nothing |
| `CcmStar.CbcConcat` | contiki-ng/os/lib/ccm-star.c:109-128 | chaining over additional data and then the message is chaining over both |
| `CcmStar.SetIv` | contiki-ng/os/lib/ccm-star.c:56-65 | flags, nonce and the counter in two bytes (high byte first: IvBlockExact) |
| `CcmStar.CtrStep` | contiki-ng/os/lib/ccm-star.c:69-84 | one block of the message masked with one key-stream block, the rest unchanged |
| `CcmStar.XorInto` | contiki-ng/os/lib/ccm-star.c:111-113 | data xored into the block as far as there is data and room |
| `CcmStar.Absorb` | contiki-ng/os/lib/ccm-star.c:109-127 | the loop over partial blocks is CBC-MAC over the zero-padded data |
| `CcmStar.AbsorbAuth` | contiki-ng/os/lib/ccm-star.c:100-117 | additional data, length first, is absorbed as section 2.2 of RFC 3610 lays it out |
| `CcmStar.ComputeMic` | contiki-ng/os/lib/ccm-star.c:87-133 | the MIC is the zero-padded CBC-MAC of section 2.2 masked with key-stream block 0 |
| `CcmStar.EncryptMessage` | contiki-ng/os/lib/ccm-star.c:136-147 | the message is encrypted as in section 2.3 of RFC 3610, nothing else changes |
| `CcmStar.Aead` | contiki-ng/os/lib/ccm-star.c:156-181 | bad lengths change nothing; forward and backward give the message transformed byte by byte as in section 2.3 of RFC 3610 and the MIC of the plain one as in section 2.2, both stated by what the blocks hold; nothing else is touched, also with the MIC behind the message in one buffer |
| `CcmStar.SealAndOpen` | contiki-ng/os/lib/ccm-star.c:156-181 | forward then backward restores the message and gives the same MIC |
| `Crc16.Crc16Add` | contiki-ng/os/lib/crc16.c:46-63 | the updates in place are the bitwise CRC of the one byte |
| `Crc16.Crc16Data` | contiki-ng/os/lib/crc16.c:65-75 | the checksum is the bitwise CRC of the message, and that of its bits fed one by one |
| `Crc16.MixIsEightShifts` | contiki-ng/os/lib/crc16.c:58-61 | the four lines are eight shifts with the reversed polynomial 0x8408 |
| `Crc16.DataIsBitwise` | contiki-ng/os/lib/crc16.c:65-75 | the fast form computes the bitwise CRC of any message |
| `Crc16.BitwiseIsSerial` | contiki-ng/os/lib/crc16.c:47-63 | taking a byte in at once and shifting it through is feeding its bits one by one, lowest first |
| `Crc16.AddInjective` | contiki-ng/os/lib/crc16.c:47-63 | the update is injective in the accumulator |
| `Crc16.TwoBytesDetermined` | contiki-ng/os/lib/crc16.c:47-63 | two bytes can be recovered from the checksums before and after them |
| `Crc16.WindowDetected` | contiki-ng/os/lib/crc16.c:65-75 | messages of equal length that differ within two adjacent bytes have different checksums |
| `Crc16.BurstDetected` | contiki-ng/os/lib/crc16.c:65-75 | messages of equal length that differ within 16 consecutive bits, wherever in a byte these begin, have different checksums |
| `Crc16.LongerBurstMissed` | contiki-ng/os/lib/crc16.c:65-75 | a burst of 17 bits, the polynomial itself, is not detected |
| `ClockTime.ExpiryExact` | contiki-ng/os/sys/timer.c:123-128 | the wrapping comparison is exact for almost a whole turn of the clock |
| `TrickleImax.IminCheckExact` | contiki-ng/os/lib/trickle-timer.h:305-306 | the check admits Imin from 2 to below half the clock range |
| `TrickleImax.PairCheckExact` | contiki-ng/os/lib/trickle-timer.h:322-323 | the check says exactly whether Imin << Imax is at most half the clock range |
| `TrickleImax.TopBits` | contiki-ng/os/lib/trickle-timer.c:108 | masking the highest bits gives zero exactly when they are zero |
| `TrickleImax.ShiftMask` | contiki-ng/os/lib/trickle-timer.c:103-112 | the halving mask after any of its shifts |
| `TrickleImax.MaxImax` | contiki-ng/os/lib/trickle-timer.c:98-112 | the result passes the pair check and no larger Imax does |
| `TrickleImax.MaskLiterals` | contiki-ng/os/lib/trickle-timer.c:115-149 | the masks of the fixed-width flavours are the highest 16, 8, 4, 2 and 1 bits |
| `TrickleImax.MaxImaxFixed` | contiki-ng/os/lib/trickle-timer.c:114-149 | the fixed-width flavours: the result passes the pair check, and is the largest that does exactly if Imin is not a power of two |
| `TrickleTimer.StepSound` | contiki-ng/os/lib/trickle-timer.c:191-317 | every event keeps the interval within [Imin, Imax] and the timer within half the clock range |
| `TrickleTimer.IntervalsDouble` | contiki-ng/os/lib/trickle-timer.c:191-255 | between resets the n-th interval has length min(I0 * 2^n, Imax), begins where the one before ended, and has its t in the second half |
| `TrickleTimer.SuppressionRule` | contiki-ng/os/lib/trickle-timer.h:250-251 | transmission is allowed exactly if k is 0 or fewer than k consistent messages were heard, however many, inconsistent ones at Imin in between or not |
| `TrickleTimer.SuppressionInInterval` | contiki-ng/os/lib/trickle-timer.h:250-251 | whatever begins an interval, a timeout or a reset: at its t, transmission is allowed exactly if k is 0 or fewer than k consistent messages were heard since |
| `TrickleTimer.ResetRestarts` | contiki-ng/os/lib/trickle-timer.c:320-333 | an inconsistent message in an interval longer than Imin: from then to the next reset the intervals begin at once, have lengths min(Imin * 2^n, Imax), and each begins where the one before ended |
| `TrickleTimer.ResetAtImin` | contiki-ng/os/lib/trickle-timer.c:326-327 | an inconsistent message changes nothing exactly if the interval is Imin |
| `TrickleTimer.OnTime` | contiki-ng/os/lib/trickle-timer.c:169-187 | served in time, an interval transmits at the t it drew, in its second half, and ends where the next begins |
| `TrickleTimer.Timer.Config` | contiki-ng/os/lib/trickle-timer.c:336-382 | refused exactly for a bad Imin or zero Imax or k; otherwise Imin << Imax fits, with Imax lowered only as far as needed; a pending ctimer stays pending, and the timer is sound exactly if none was |
| `TrickleTimer.Timer.GetT` | contiki-ng/os/lib/trickle-timer.c:157-166 | a point in the second half of the interval |
| `TrickleTimer.DrawReaches` | contiki-ng/os/lib/trickle-timer.c:157-166 | with random numbers below a bound, exactly that many points from the middle of the interval on can be drawn, and never the last of an odd one |
| `TrickleTimer.NarrowRandomSuffices` | contiki-ng/os/lib/trickle-timer.h:144-160 | 16-bit random numbers reach every point that wide ones do exactly for intervals up to 0x20001 |
| `TrickleTimer.Timer.NewInterval` | contiki-ng/os/lib/trickle-timer.c:288-303 | an interval that begins now, with nothing heard and a t drawn in its second half |
| `TrickleTimer.Timer.Set` | contiki-ng/os/lib/trickle-timer.c:385-416 | a first interval between Imin and Imax, any of which can come up |
| `TrickleTimer.Timer.Stop` | contiki-ng/os/lib/trickle-timer.h:451-454 | nothing pending, not running |
| `TrickleTimer.Timer.Consistency` | contiki-ng/os/lib/trickle-timer.c:308-317 | one more message heard, in the rules' unbounded count; nothing when stopped |
| `TrickleTimer.Timer.Inconsistency` | contiki-ng/os/lib/trickle-timer.c:320-333 | in an interval longer than Imin: an interval of length Imin begins now, with nothing heard and its t drawn; at Imin or when stopped: nothing changes |
| `TrickleTimer.Timer.Fire` | contiki-ng/os/lib/trickle-timer.c:260-283 | the callback with the rules' answer, which is k == 0 or c < k, and the timer set for the interval's end |
| `TrickleTimer.Timer.ScheduleForEnd` | contiki-ng/os/lib/trickle-timer.c:169-187 | due at the end of the interval, or at once if that has passed, across the wrap of the clock |
| `TrickleTimer.Timer.DoubleInterval` | contiki-ng/os/lib/trickle-timer.c:192-255 | the next interval of the rules, of length min(2 * I, Imax), begun where the last one ended, however late the call |
| `TrickleTimer.Timer.Run` | contiki-ng/os/lib/trickle-timer.c:157-333 | over every run of events the code follows the rules and makes their callbacks |
| `Etimer.RefusedKeeps` | contiki-ng/os/sys/etimer.c:133-135 | refused posts change nothing |
| `Etimer.AcceptedTakesOff` | contiki-ng/os/sys/etimer.c:118-132 | an accepted post takes exactly its timer off the list |
| `Etimer.PollComplete` | contiki-ng/os/sys/etimer.c:117-138 | a pass without an accepted post completes the poll |
| `Etimer.PollOutcome` | contiki-ng/os/sys/etimer.c:113-139 | after a poll, a timer on the list had every post refused, one taken off had exactly one accepted |
| `Etimer.EtimerProcess.EtimerExpired` | contiki-ng/os/sys/etimer.c:213-216 | a timer reported expired is not on the list |
| `Etimer.EtimerProcess.UpdateTime` | contiki-ng/os/sys/etimer.c:57-78 | next_expiration is the expiration time at the least modular distance ahead; NearestWakes and NearestIsFirstDue say what that means |
| `Etimer.NearestWakes` | contiki-ng/os/sys/etimer.c:57-78 | while no timer of the list has expired: none counts as expired at any clock reading until next_expiration, and one does at it, exactly unless those that end then have the longest interval |
| `Etimer.NearestIsFirstDue` | contiki-ng/os/sys/etimer.c:57-78 | in unbounded time, for timers armed less than a turn of the clock ago and not yet due: next_expiration is the clock reading at the time when the first of them is due |
| `Etimer.LongestNeverExpires` | contiki-ng/os/sys/timer.c:123-130 | the comparison never finds an interval expired exactly if it is the longest one |
| `Etimer.ExpiredFirst` | contiki-ng/os/sys/timer.c:84-89 | an expired timer first counted as expired at its start plus its interval, going round |
| `Etimer.EtimerProcess.Unlink` | contiki-ng/os/sys/etimer.c:124-130 | the timer is off the list and marked, the rest linked in order |
| `Etimer.EtimerProcess.FirstAccepted` | contiki-ng/os/sys/etimer.c:117-138 | expired timers are posted to their processes in order, up to the first accepted post |
| `Etimer.EtimerProcess.Poll` | contiki-ng/os/sys/etimer.c:113-139 | the restarting loop terminates; it removes exactly the timers whose post was accepted and leaves no expired one that was not refused |
| `Etimer.EtimerProcess.Exited` | contiki-ng/os/sys/etimer.c:91-108 | the timers of the process leave the list, the rest keep their order |
| `Etimer.EtimerProcess.AddTimer` | contiki-ng/os/sys/etimer.c:151-174 | the timer is on the list once, owned by the current process; without one it is listed and yet counts as expired |
| `Etimer.EtimerProcess.Set` | contiki-ng/os/sys/etimer.c:177-181 | as AddTimer, with start and interval set |
| `Etimer.EtimerProcess.ResetWithNewInterval` | contiki-ng/os/sys/etimer.c:184-196 | an expired timer starts again at the first clock reading at which it counted as expired, with the new interval |
| `Etimer.EtimerProcess.Restart` | contiki-ng/os/sys/etimer.c:199-203 | the timer starts again now with its interval |
| `Etimer.EtimerProcess.Adjust` | contiki-ng/os/sys/etimer.c:206-210 | the start moves modulo the clock range |
| `Etimer.EtimerProcess.Stop` | contiki-ng/os/sys/etimer.c:243-271 | the timer is off the list and counts as expired, wherever it was |
| `QueuebufSwap.TakeKeeps` | contiki-ng/os/net/queuebuf.c:195-211 | the next id is not live when its file may be entered, and taking it keeps the invariant |
| `QueuebufSwap.ReleaseKeeps` | contiki-ng/os/net/queuebuf.c:174-186 | releasing an id keeps the invariant, marking the file renewable only if it is empty and not being filled |
| `QueuebufSwap.RenewKeeps` | contiki-ng/os/net/queuebuf.c:141-158 | renewing an empty file loses no live record |
| `QueuebufSwap.SwapFiles.constructor` | contiki-ng/os/net/queuebuf.c:281-289 | four empty files, no live id |
| `QueuebufSwap.SwapFiles.RenewFile` | contiki-ng/os/net/queuebuf.c:141-158 | the file starts again, empty |
| `QueuebufSwap.SwapFiles.RenewAll` | contiki-ng/os/net/queuebuf.c:162-170 | every renewable file is renewed and every live record kept |
| `QueuebufSwap.SwapFiles.RemoveFromFile` | contiki-ng/os/net/queuebuf.c:174-186 | the id is no longer live and uncounted; its file is marked renewable exactly if it holds no live id and is not being filled; -1 changes nothing |
| `QueuebufSwap.SwapFiles.GetNewSwapId` | contiki-ng/os/net/queuebuf.c:195-211 | an id that is not live; -1 exactly if the file to be opened still holds a live record |
| `QueuebufSwap.SwapFiles.Store` | contiki-ng/os/net/queuebuf.c:214-240 | the record is stored under a fresh id and all others keep theirs |
| `QueuebufSwap.SwapFiles.Load` | contiki-ng/os/net/queuebuf.c:244-269 | what was stored under the id |
| `Aggregation.Slide` | contiki-ng/mini_project/data_aggregation/source.c:46-50 | the sums after a sample: it comes in, the one in the next slot goes |
| `Aggregation.VarianceFormula` | contiki-ng/mini_project/data_aggregation/source.c:53-60 | mean square minus squared mean is the population variance |
| `Aggregation.VarianceNonNegative` | contiki-ng/mini_project/data_aggregation/source.c:53-60 | the variance is never negative over the reals |
| `Aggregation.MeanExactIff` | contiki-ng/mini_project/data_aggregation/source.c:46-60 | the mean is that of the last WINDOW_SIZE samples exactly while the window fills or if the sample left out is zero |
| `Aggregation.VarianceExactIff` | contiki-ng/mini_project/data_aggregation/source.c:46-60 | the variance is that of the last WINDOW_SIZE samples exactly while the window fills, or if the sample x left out is zero or (WINDOW_SIZE - 1) x is twice the sum of the others |
| `Aggregation.Distribution.Update` | contiki-ng/mini_project/data_aggregation/source.c:44-66 | the sums cover the last WINDOW_SIZE - 1 samples; mean and variance are those of the window, the variance at least zero |
| `Aggregation.Distribution.SetMoments` | contiki-ng/mini_project/data_aggregation/source.c:51-60 | which divisor is used, and that it is the size of the window |
| `Aggregation.AggregateBetween` | contiki-ng/mini_project/data_aggregation/aggregator.c:31-45 | with non-negative variances the weighted mean lies between the smallest and the largest sample |
| `Aggregation.AggregateBalances` | contiki-ng/mini_project/data_aggregation/aggregator.c:31-45 | the aggregate is the only point about which the distances of the samples, each divided by its variance (a zero counting as 1), cancel out |
| `Aggregation.AggregateLeastSquares` | contiki-ng/mini_project/data_aggregation/aggregator.c:31-45 | every other point has a larger sum of squared distances, each divided by the variance |
| `Aggregation.AggregateData` | contiki-ng/mini_project/data_aggregation/aggregator.c:31-45 | the mean weighted with inverse variances, a zero variance weighing 1: for non-negative variances the only point of least squares |
| `Aggregation.Aggregator.Store` | contiki-ng/mini_project/data_aggregation/aggregator.c:83-104 | the first message of a node in a round is stored, later ones are counted as missed, unknown nodes ignored |
| `Aggregation.Aggregator.Finish` | contiki-ng/mini_project/data_aggregation/aggregator.c:120-163 | an aggregate exactly when all nodes were heard or the timer expired, and a new round |
| `Aggregation.RoundBetween` | contiki-ng/mini_project/data_aggregation/aggregator.c:120-131 | what a round sends on lies between the smallest and the largest sample heard, whatever was heard, exactly if every node was heard or the aggregate of what is stored of the others lies there |
| `Aggregation.Aggregator.IsRound` | contiki-ng/mini_project/data_aggregation/aggregator.c:83-131 | what is aggregated is what was heard in the round and, of the other nodes, what was stored before it |
| `Aggregation.StaleRound` | contiki-ng/mini_project/data_aggregation/aggregator.c:83-163 | a run of the aggregator in which the first round hears one sample, 6, ends by the timer and sends on 2 |
| `Aggregation.SentBetween` | contiki-ng/mini_project/data_aggregation/aggregator.c:120-131 | what is sent on lies between the smallest and the largest stored sample |

## Left out

- Slip.Transmitter.Write: is for lengths that its 16-bit index can count; the loop does not end for longer ones.
- heapmem: `heapmem_zone_register`, the alignment of returned pointers, `HEAPMEM_DEBUG`; the alignment macro is arithmetic instead of a mask; `zones` is a sequence of records.
- nbr-table: counting entries, the address of an item and iteration over keys, RPL policies, callbacks that call back into the tables, debug printing; the static arrays of bitmaps and keys are sequences, and items are addressed by slot.
- slip: interrupts inside the poll handler (each call is atomic), statistics counters, the input callback.
- ringbuf: compilers that reorder the accesses; sizes above 128.
- serial-line: event delivery, which only delays the process.
- ccm-star: the block cipher and its key; a message begins at the start of its buffer, and the nonce and the additional data are values.
- trickle-timer: drift compensation switched off, callbacks that stop or reset the timer, the expiry of a ctimer that `trickle_timer_config` left pending; each call reads the clock once.
- etimer: a `clock_time_t` narrower than `int`, for which the comparison in `update_time` is not the modular one; calls that follow a timer set without a current process; protothread resumption; the event queue, whose answers are arbitrary.
- queuebuf: the cached record in RAM and its owner, packets kept in RAM, errors of the file system.
- aggregation: rounding of doubles, the 16-bit limit of the missed counter, sampling, radio messages and the ids listed in the aggregate.
- process scheduler, radio, file system and device drivers.
