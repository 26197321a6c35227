# Slab allocator model

A Dafny model of the slab engine in `src/slab.hpp`: a single-threaded allocator of fixed-size units.

- Units come from blocks of 64. Each block keeps one 64-bit free mask, where bit 1 means the unit is free.
- The allocator keeps a list of blocks, head first, and a `cache` pointer to the block it serves from.
- It counts every block in `total_count`.
- It means `reserved_count` to count the empty blocks, bounded by `reserved_limit`. Every path keeps that count except the block `prepare_bulk` creates (see Findings).
- `allocate`, `deallocate`, `prepare_bulk` and `reclaim` move, create and destroy blocks.

The project has five modules:

- `Bits` (`bits.dfy`): the word operations the block relies on.
  - Test, clear and set a bit, count trailing zeros and population count on `bv64`.
  - Their facts: clearing or setting one bit changes no other bit, `ctz64` finds the lowest set bit, and popcount moves by one.
- `Layout` (`layout.dfy`): the byte layout of a block.
  - A 32-byte block header (four 8-byte fields, on a target with 8-byte pointers), then 64 slots of `unitMetaSize` bytes. Each slot has an 8-byte unit header (slot index, offset back to the block) in front of the payload.
  - The address translations `getUnitByIndex`, `->payload`, `getUnitFromPayload` and `getBlockFromUnit` work on (block, byte offset) addresses, and are proved to invert each other.
- `BlockList` (`blocklist.dfy`): the list edits as operations on sequences.
  - Push at the head, move to the front, unlink one block, and drop the empty blocks behind the head.
  - Per-block tallies: empty blocks and units in use, with how each tally changes under each edit.
- `Policy` (`policy.dfy`): the allocator's decisions on values.
  - Which block serves an allocation, when a block is created, moved, counted, evicted or reclaimed, and how the counters follow.
  - The state is generic in the block handle.
  - The invariant `Inv` says four things:
    - `total_count` is the list length;
    - `reserved_count` is the number of empty blocks;
    - that number is at most `reserved_limit`;
    - the limit is at least 1.
  - Each operation is proved to keep `Inv`, and its effect is stated block by block.
- `Slab` (`slab.dfy`): the C++ classes as Dafny classes.
  - `SlabBlock` has its `allocator`, its 64 unit headers, and a `bitMap` that `AllocateUnit` and `DeallocateUnit` update in place.
  - `SlabAllocator` has the fields `list`, `cache`, `total_count`, `reserved_count` and `reserved_limit`, changed by its methods. Where the source walks the list, the methods contain `while` loops over `list`. Three walks are restructured (see Left out).
  - Every allocator method is proved to produce the abstract state (`View()`) that the `Policy` function of the same name computes. So everything proved in `Policy` holds of the objects.

A successful `_malloc` is a `grant: bool` parameter of the operations that may create a block. With `grant` true, `allocate` always hands out a unit, and `prepare_bulk` with a count of at most 64 always succeeds.

## Model

| member | source | states |
|---|---|---|
| Bits.Get | src/slab.hpp:94 | `get`: the value of one bit, always 0 or 1 |
| Bits.SetZero | src/slab.hpp:107 | `set_zero(w, i)`: bit `i` is clear afterwards (the other bits: ClearKeepsOthers) |
| Bits.SetOne | src/slab.hpp:112 | `set_one(w, i)`: bit `i` is set afterwards (the other bits: SetKeepsOthers) |
| Bits.Ctz64 | src/slab.hpp:106 | for a non-zero mask, the returned position holds a set bit and every lower position is clear |
| Bits.Popcnt64 | src/slab.hpp:336 | the number of free units of a mask is at most 64 |
| Bits.ClearKeepsOthers | src/slab.hpp:107 | `set_zero(w, i)` leaves every bit other than `i` as it was |
| Bits.SetKeepsOthers | src/slab.hpp:112 | `set_one(w, i)` leaves every bit other than `i` as it was |
| Bits.PopcntZero | src/slab.hpp:84-86 | a mask has no free unit exactly when it is 0 |
| Bits.PopcntFull | src/slab.hpp:88-90 | a mask has 64 free units exactly when it is UINT64_MAX |
| Bits.PopcntSetZero | src/slab.hpp:106-107 | clearing a set bit lowers the free count by exactly one |
| Bits.PopcntSetOne | src/slab.hpp:112 | setting a clear bit raises the free count by exactly one |
| Bits.PopcntComplement | src/slab.hpp:92-95 | free units plus allocated units (clear bits) make 64 |
| Layout.Align8Rounds | src/slab.hpp:169 | for a size of at most 4096, `(n + 7) & ~7` is a multiple of 8, at least `n` and less than `n + 8` |
| Layout.UnitMetaSize | src/slab.hpp:169-170 | for an accepted size, the stride of one unit is a multiple of 8 that holds the 8-byte header and the payload, with less than 8 bytes of padding |
| Layout.UnitSizeRoundTrip | src/slab.hpp:169-170 | `unitSize()` after construction returns the requested size rounded up to a multiple of 8, for a requested size of at most 4096 |
| Layout.Header | src/slab.hpp:42-45 | the header written for slot `i` records index `i` |
| Layout.HeadersRecordSlots | src/slab.hpp:73-77 | `construct` gives unit `i` index `i` and offset `32 + i * unitMetaSize` from the block |
| Layout.UnitAt | src/slab.hpp:97-101 | slot `i`'s unit is in block `b`, between the block header and the end of the block's storage, and the header `construct` writes there records exactly its distance from `b` |
| Layout.PayloadOf | src/slab.hpp:37 | `->payload` stays in the unit's block and lies past the whole 8-byte unit header |
| Layout.UnitFromPayload | src/slab.hpp:47-49 | `getUnitFromPayload` inverts `->payload`: the payload of the unit it returns is the given pointer |
| Layout.BlockFromUnit | src/slab.hpp:132-134 | `getBlockFromUnit` stays in the unit's block; for any slot's unit and the header `construct` wrote there, it returns the block's base |
| Layout.UnitInBlock | src/slab.hpp:100 | every slot lies between the block header and the end of the block's storage |
| Layout.UnitsDisjoint | src/slab.hpp:100 | distinct slots do not overlap |
| Layout.PayloadRoundTrip | src/slab.hpp:47-49 | from the payload of slot `i`, `getUnitFromPayload` returns that slot's unit, its header names `i`, and `getBlockFromUnit` returns the block base |
| Slab.SlabBlock.constructor | src/slab.hpp:62-78 | a constructed block belongs to its allocator, has every unit free, and carries the 64 headers of its slots |
| Slab.SlabBlock.Create | src/slab.hpp:115-130 | `create` returns a fresh, constructed block exactly when raw memory is granted, and null otherwise |
| Slab.SlabBlock.IsFull | src/slab.hpp:84-86 | a block is full exactly when it has no free unit |
| Slab.SlabBlock.IsEmpty | src/slab.hpp:88-90 | a block is empty exactly when all 64 units are free |
| Slab.SlabBlock.IsUnitAllocated | src/slab.hpp:92-95 | a unit is allocated exactly when its bit is clear |
| Slab.SlabBlock.GetUnitByIndex | src/slab.hpp:97-101 | returns slot `index`'s unit, inside this block's storage; in a formatted block the header there names `index`, and `getBlockFromUnit` from it returns this block |
| Slab.SlabBlock.AllocateUnit | src/slab.hpp:103-109 | on a block that is not full, claims the lowest free unit, clears exactly its bit and keeps every other bit, and lowers the free count by one |
| Slab.SlabBlock.DeallocateUnit | src/slab.hpp:111-113 | sets exactly bit `index` and keeps every other bit; if the unit was allocated, the free count rises by one |
| Slab.SlabAllocator.constructor | src/slab.hpp:166-183 | the first block is cached and is the whole list; both counters are 1; the limit is at least 1; the allocator invariant holds with no unit out |
| Slab.SlabAllocator.Total | src/slab.hpp:194-196 | `total()` is the number of listed blocks, at least 1 |
| Slab.SlabAllocator.Reserved | src/slab.hpp:198-200 | `reserved()` is the number of empty listed blocks, within the limit |
| Slab.SlabAllocator.UnitSize | src/slab.hpp:202-204 | `unitSize()` is the requested size rounded up to a multiple of 8 |
| Slab.SlabAllocator.Allocate | src/slab.hpp:206-269 | `allocate` keeps the invariant, creates a block only when memory is granted, always hands out a unit when it is granted, and leaves the state that `Policy.Allocate` computes |
| Slab.SlabAllocator.ServeCache | src/slab.hpp:213-219 | serving from a non-full cache hands out a unit, leaves the list as it was and leaves the state `Policy.Allocate` computes |
| Slab.SlabAllocator.ServeNewBlock | src/slab.hpp:224-244 | with every block full, a unit is handed out exactly when memory is granted: the new block is pushed at the head and serves; when memory is refused, nothing changes |
| Slab.SlabAllocator.ServeListed | src/slab.hpp:221-268 | serving the first non-full block hands out a unit, keeps the list length, moving the block to the head when it is past the threshold |
| Slab.SlabAllocator.FloatToHead | src/slab.hpp:250-261 | the found block is moved to the head, and the other blocks keep their order |
| Slab.SlabAllocator.Deallocate | src/slab.hpp:271-326 | `deallocate` keeps the invariant and leaves the state `Policy.Deallocate` computes, including the four ignored cases |
| Slab.SlabAllocator.ReturnUnit | src/slab.hpp:293-322 | freeing an allocated unit gives the state `Policy.Deallocate` computes for it |
| Slab.SlabAllocator.RetireEmpty | src/slab.hpp:296-321 | a block that has just become empty is counted, and unlinked when the count then exceeds the limit |
| Slab.SlabAllocator.Unlink | src/slab.hpp:300-320 | unlinking a block removes exactly it from the list, lowers both counters by one, and moves a cache that pointed at it to the head |
| Slab.SlabAllocator.PrepareBulk | src/slab.hpp:328-361 | `prepare_bulk` keeps the invariant, fails for a count above 64, succeeds for any other count when memory is granted, and leaves the result and state `Policy.PrepareBulk` computes |
| Slab.SlabAllocator.CacheWithFree | src/slab.hpp:359-360 | caching the first block with enough free units succeeds and changes only the cache |
| Slab.SlabAllocator.PrepareNewBlock | src/slab.hpp:337-354 | with no block holding enough free units, it succeeds exactly when memory is granted: a new block is pushed and cached; otherwise `false` is returned and nothing changes |
| Slab.SlabAllocator.PushPrepared | src/slab.hpp:346-353 | succeeds; the new block is pushed at the head, cached and counted as empty (the corrected form, see Findings) |
| Slab.SlabAllocator.Reclaim | src/slab.hpp:367-402 | `reclaim` keeps the invariant and returns the count and state `Policy.Reclaim` computes |
| Slab.SlabAllocator.SweepEmpty | src/slab.hpp:372-396 | the walk keeps the head and, in order, every non-empty block behind it, and counts the rest |
| Slab.SlabAllocator.Relink | src/slab.hpp:376-399 | relinking the kept blocks lowers both counters by the number freed and caches the head |
| Policy.Init | src/slab.hpp:172-177 | the constructed state satisfies the invariant with no unit out |
| Policy.Take | src/slab.hpp:103-109 | `allocateUnit` on a listed block: the unit at the block's lowest set bit, with that bit cleared (its properties: TakeShape, TakeFacts, AllocateTakesLowestFree) |
| Policy.TakeFacts | src/slab.hpp:103-109 | taking a unit keeps the list, cache and counters, adds one unit out, and leaves one empty block fewer when the block was empty |
| Policy.Push | src/slab.hpp:232-241 | a new empty block at the head, cached, with `total_count + 1` (its properties: PushWf, PushEmptyCount, PushOutstanding) |
| Policy.PushEmptyCount | src/slab.hpp:232-241 | pushing a new block adds exactly one empty block |
| Policy.Allocate | src/slab.hpp:206-269 | the pointer and state `allocate` leaves; a null pointer happens only when no new block could be made, and it leaves the state unchanged |
| Policy.FirstNonFull | src/slab.hpp:221-248 | the walk stops at the first non-full block, past full blocks only, or reports that every block is full |
| Policy.AllocateKeepsInv | src/slab.hpp:206-269 | `allocate` keeps the invariant, hands out one more unit, and changes nothing when it returns null |
| Policy.AllocateFromCache | src/slab.hpp:213-219 | a non-full cache serves; the list, cache and total stay; `reserved_count` drops exactly when the cache was empty |
| Policy.AllocateFromList | src/slab.hpp:221-268 | with a full cache, the first non-full block serves and becomes the cache; it moves to the head only when found more than 4 steps in; `reserved_count` drops exactly when it was empty |
| Policy.AllocateWhenAllFull | src/slab.hpp:224-244 | with every block full, a granted block is pushed at the head, cached and serves with `total_count + 1`; refused memory changes nothing and returns null |
| Policy.AllocateCreatesOnlyWhenFull | src/slab.hpp:224-244 | a unit is served from a block not yet listed only when every listed block was full |
| Policy.AllocateTakesLowestFree | src/slab.hpp:103-109 | the unit handed out is the lowest free unit of its block, only its bit is cleared, and no other block's mask changes |
| Policy.MoveFacts | src/slab.hpp:250-261 | moving a block to the front keeps the blocks, the empty count and the units in use |
| Policy.EvictionLeavesABlock | src/slab.hpp:177 | with the limit at least 1, a block can be evicted only when at least two blocks are listed |
| Policy.Evict | src/slab.hpp:300-320 | unlinking and destroying a block: the block leaves the list, both counters drop by one, and a cache that pointed at it becomes the head (its properties: EvictWf, EvictEmptyCount, DeallocateEvicts) |
| Policy.EvictEmptyCount | src/slab.hpp:300-320 | evicting an empty block leaves exactly one empty block fewer |
| Policy.Deallocate | src/slab.hpp:271-326 | the state `deallocate` leaves: no change for a rejected pointer; otherwise the unit's bit is set, a block that becomes empty is counted, and it is evicted when the count then exceeds the limit (its properties: the Deallocate lemmas below) |
| Policy.DeallocateKeepsInv | src/slab.hpp:271-326 | `deallocate` keeps the invariant, so `reserved_count` stays within the limit |
| Policy.DeallocateChangesIffReturnable | src/slab.hpp:272-293 | `deallocate` changes the state exactly when the pointer is non-null, its index is below 64, its block is listed and its unit is allocated |
| Policy.DeallocateReturnsOne | src/slab.hpp:293-322 | a valid `deallocate` returns exactly one unit |
| Policy.DeallocateSetsOneBit | src/slab.hpp:294 | a valid `deallocate` sets exactly the unit's bit and no other block's mask changes |
| Policy.DeallocateTwiceIgnored | src/slab.hpp:293-325 | giving back the same pointer a second time is ignored: the state after two `deallocate`s is the state after one. When the first call evicted the block, the model ignores the second as foreign; in the source it would read destroyed memory (see Left out) |
| Policy.DeallocateRetains | src/slab.hpp:296-299 | a block that becomes empty within the limit stays listed, and `reserved_count` rises by one |
| Policy.DeallocateEvicts | src/slab.hpp:300-321 | a block that becomes empty beyond the limit is unlinked; `total_count` drops by one, `reserved_count` ends where it started, and a cache that pointed at it moves to the head |
| Policy.AllocateThenDeallocate | src/slab.hpp:206-326 | returning the unit just allocated is accepted and restores the number of units out |
| Policy.FirstWithFree | src/slab.hpp:336-357 | the walk stops at a block with at least `count` free units, or past the end |
| Policy.FirstWithFreeSkips | src/slab.hpp:336 | every block the walk passes has fewer than `count` free units |
| Policy.PrepareBulkAsWritten | src/slab.hpp:328-361 | `prepare_bulk` as written: it succeeds only for a count of at most 64, failure changes nothing, and `reserved_count` never changes, even when it creates an empty block |
| Policy.PrepareBulk | src/slab.hpp:328-361 | `prepare_bulk` corrected: it succeeds only for a count of at most 64, failure changes nothing, and `reserved_count` rises by one exactly when the cached block is a new one |
| Policy.PrepareBulkCaches | src/slab.hpp:328-361 | `count > 64` fails; failure changes nothing; on success the cache has at least `count` free units and is the first such block, or a new block pushed at the head with `total_count + 1` when none had enough |
| Policy.PrepareBulkKeepsInv | src/slab.hpp:328-361 | the corrected `prepare_bulk` keeps the invariant and the number of units out |
| Policy.PrepareBulkTooMany | src/slab.hpp:329-332 | `count > 64` returns false and changes nothing |
| Policy.PrepareBulkRefused | src/slab.hpp:339-342 | refused memory returns false and changes nothing |
| Policy.PrepareBulkAsWrittenMiscounts | src/slab.hpp:346-351 | as written, a block created by `prepare_bulk` is empty but uncounted, and the next allocation from it takes `reserved_count` below 0 (4294967295 in 32 bits) |
| Policy.PrepareBulkCorrectedCounts | src/slab.hpp:346-351 | counting the new empty block keeps the invariant through the same sequence |
| Policy.CacheServesNext | src/slab.hpp:213-219 | after the cache holds `n` free units, the next `n` allocations are all served from it with the list and cache unchanged |
| Policy.Reclaim | src/slab.hpp:367-402 | `reclaim` frees fewer blocks than are listed, the list shrinks by the number freed, and the head stays and becomes the cache |
| Policy.ReclaimFreesEmptyBlocks | src/slab.hpp:367-402 | `reclaim` returns the number of empty blocks behind the head, keeps the head and the non-empty blocks in order, drops both counters by that number, and caches the head |
| Policy.ReclaimKeepsInv | src/slab.hpp:367-402 | `reclaim` keeps the invariant and the number of units out |
| Policy.ReclaimEmptyCount | src/slab.hpp:381-384 | the empty count drops by exactly the number freed |

## Left out

- `ObjectPool<T>` (src/slab.hpp:425-464) is not modelled. Placement-new and C++ object lifetimes have no counterpart here.
- `print_stats` and `print_bitMap` are not modelled; they only print diagnostics. The `std::cerr` messages on error paths are dropped, and the paths themselves are modelled as no-ops.
- `_malloc`/`_free` are not modelled as memory.
  - Block creation is a fresh object when the `grant` parameter is true.
  - `destroy` is removal from the list.
  - The destructor's free loop is not modelled.
- The default argument `reserved_limit = 4` (src/slab.hpp:166) is not modelled. Callers of the constructor pass the limit explicitly; the clamp to at least 1 is modelled.
- `exit(1)` in the constructor is not modelled: the first block is assumed to be granted. The `assert` and `_DEBUG` guards become preconditions or are unreachable under the invariant.
- The `next`/`prev` links are the sequence `list`, head first. Each relink in the source is one sequence edit here.
- Slab.SlabAllocator.Allocate: does not repeat the source's loop that creates the block on reaching the tail. It walks to the first non-full block and creates the block after the walk, which gives the same state.
- Slab.SlabAllocator.PrepareBulk: creates the block after the walk, once the walk has passed every block without finding `count` free units, instead of inside the loop on reaching the tail (`slab->next == nullptr`). The final state is the same.
- Slab.SlabAllocator.Reclaim: drops both counters by the number destroyed once, after the walk, instead of once per block. The final state is the same.
- Slab.SlabAllocator.Reclaim: `reclaim`'s null-head check is unreachable, because the list is never empty.
- Slab.SlabAllocator.Deallocate: a pointer into a block this allocator has already destroyed is excluded by a precondition. Reading its header would be undefined behaviour.
- A payload pointer is the block plus the unit's index field. `Layout` proves separately that those are what `getUnitFromPayload` and `getBlockFromUnit` recover from a payload address.
- Slab.SlabAllocator.PrepareBulk: `count` is a natural number below 256, the range of `uint8_t`.
- The counters are unbounded integers. The only 32-bit wrap-around the source can reach is the one in Findings, which `Policy.PrepareBulkAsWrittenMiscounts` states modulo 2^32.
- `bits.hpp` is not part of this model. `ctz64`, `popcnt64`, `get`, `set_zero` and `set_one` are defined in `Bits` from their documented meaning.
- Slab.SlabAllocator.PrepareBulk: models the corrected `prepare_bulk`, which counts its new empty block. The code as written is `Policy.PrepareBulkAsWritten`.
- Reclaim never frees the head block, even when it is empty; the model follows the code here. The head is only freed by eviction in `deallocate`.

## Findings

| source | as written | input that shows it | evidently intended | confidence | as-written member | corrected member |
|---|---|---|---|---|---|---|
| src/slab.hpp:346-351 | `prepare_bulk` pushes a new, empty block and increments `total_count` but not `reserved_count` | allocator with limit 4; one `allocate` (the head is no longer empty, `reserved_count` 0); `prepare_bulk(64)` creates an empty block with `reserved_count` still 0; the next `allocate` serves from that empty block and decrements `reserved_count` to 4294967295 (a debug build fails the assert at line 215 instead, since that `allocate` is served on the cache path). The error compounds: after a second round of `prepare_bulk(64)` and `allocate`, three blocks each hold one unit. Freeing those three units evicts every block, since the wrapped count always exceeds the limit. The last eviction sets `head` to null and then writes `head->prev` (lines 302-303) | the new block is counted as empty (`++reserved_count`), as every other empty block is | not executed | Policy.PrepareBulkAsWrittenMiscounts | Policy.PrepareBulkCorrectedCounts |
