# Slab cache allocator, modelled in Dafny

This project models the slab cache of `main.cpp`. The cache is a
fixed-size-object allocator layered over a page source (`alloc_slab` /
`free_slab`). The page source hands out blocks of 4096 · 2^order bytes,
each aligned to its own size.

- `cache_setup` derives the slab order and the number of objects per slab
  from the object size.
- Each slab starts with a `slabStruct` header (`previous`, `next`, `refcnt`,
  24 bytes on LP64). The slab sits on one of three intrusive doubly-linked
  lists. The list names are misleading:
  - `complete_slab` holds slabs with no live object;
  - `partially_slab` holds partly used slabs;
  - `empty_slab` holds slabs that were filled to capacity.
- `cache_alloc` takes a slot from the first partly used slab, else from the
  first slab with no live object, else from a fresh slab.
- `cache_free` finds the slab by masking the address and decrements its
  `refcnt`. A slab with no live object left moves to `complete_slab`.
- `cache_shrink` returns every slab of `complete_slab` to the page source.
  `cache_release` returns every slab of all three lists.

The model follows the source's form:

- `Layout` holds the constants and the pure arithmetic. This covers:
  - `smallest_power_of_two`, as a loop method proved against `BitLength`;
  - `calculate_slab_start`, as a function whose mask `addr & ~(2^k − 1)` is
    written `addr − addr % 2^k`;
  - the slot address `base + header + object_size · index`.
- `PageSource.Pages` stands in for `alloc_slab` / `free_slab`. It hands
  out fresh blocks aligned to their size, and it keeps the set of blocks
  outstanding and the log of blocks released.
- `SlabLists` gives the header memory as a map from slab base to
  `SlabHeader`. `IsList` states when a head pointer and a ghost sequence
  describe a well-formed doubly-linked list. The lemmas there cover what
  the list primitives do to that map.
- `SlabCache.Cache` is the `cache` struct. It holds:
  - the three head fields;
  - the header map;
  - a ghost sequence per list;
  - the ghost sequence `live` of addresses handed out and not yet freed.

  Every cache operation of `main.cpp` (the list primitives, `cache_setup`,
  `cache_alloc`, `cache_free`, `cache_shrink`, `cache_release`) is a method
  on it.
- `SlabInvariant` states the bookkeeping invariant `Counted` over values.
  It proves, separately for each branch of `cache_alloc`, `cache_free`,
  `cache_shrink` and `cache_release`, that the branch keeps it.
- `Counted` requires all of the following:
  - every slab the cache owns is on exactly one list, as `Listed` together
    with the disjointness in `ThreeLists`;
  - every slab of `complete_slab` has refcnt 0;
  - every slab of `partially_slab` has 0 < refcnt < slab_objects;
  - every slab of `empty_slab` has 0 < refcnt ≤ slab_objects;
  - every slab is an aligned block held from the page source;
  - every live address is a slot of a slab the cache owns;
  - each refcnt equals the number of live addresses that mask to its slab.
- `Scenarios` holds short client runs stated by the contracts above.

Points where `main.cpp` behaves differently from a textbook slab
allocator, as the model states them:

- **Slot index.** The slot index of an allocation from a partly used slab
  is the slab's `refcnt` (`main.cpp:181`). No per-slab free-slot stack
  exists.
- **No Full → Partial move.** `cache_free` moves a slab only when its
  `refcnt` reaches 0. A slab of `empty_slab` that drops below capacity
  stays on `empty_slab`. The invariant therefore allows
  0 < refcnt ≤ slab_objects there, not refcnt == slab_objects.
- **Aliasing.** The two points above mean that two live addresses can
  coincide. `Scenarios.SlotReusedWhileLive` shows it with 41-byte objects:
  alloc, alloc, free the first, alloc. The third address equals the
  second, which is still live. No "no two live addresses alias" property
  is claimed.
- **Order overshoot.** The slab order is the bit length of
  `(24 + object_size) / 4096` (`main.cpp:142`), not the smallest order
  whose slab holds the header and one object.
  - `Layout.SlabOrderIsLeast` proves that every smaller order has a slab
    of at most `24 + object_size` bytes. The chosen order is thus the
    least one with `24 + object_size` strictly below the slab size.
  - When `24 + object_size` is exactly 4096 · 2^k, the header and object
    would fill the slab of order k exactly, and the code takes order k+1.
- **No failure paths.** There is no out-of-memory path and no
  configuration error. `alloc_slab`'s result is used without a check, and
  `cache_setup` validates nothing. `object_size > 0` and an order of at
  most 10 (equivalently `24 + object_size < 4096 · 2^10`, by
  `Layout.SlabOrderInRange`) are preconditions of `Cache.Setup`.

## Model

| member | source | states |
|---|---|---|
| Layout.BitLength | main.cpp:56-64 | the bit length of n: 0 exactly when n is 0, otherwise 2^(p−1) ≤ n < 2^p |
| Layout.SmallestPowerOfTwo | main.cpp:56-64 | the shift-and-count loop returns the bit length of n, with 2^(pow−1) ≤ n < 2^pow for n > 0 |
| Layout.SlabHoldsHeaderAndObject | main.cpp:142 | the derived order's slab is strictly larger than header plus one object |
| Layout.SlabOrderIsLeast | main.cpp:142 | every order below the derived one has a slab no larger than header plus one object |
| Layout.SlabHoldsCapacity | main.cpp:144-148 | slab_objects is at least 1 and header plus slab_objects objects fit in the slab |
| Layout.SlabOrderInRange | main.cpp:142 | the derived order is at most 10 exactly when header plus object is below 4096 · 2^10 |
| Layout.SlabOrderFor | main.cpp:142 | the order cache_setup derives is 0 exactly when header plus object is below one page |
| Layout.SlabObjectsFor | main.cpp:144-148 | the per-slab object count is between 1 and 4096 − 24, and is 1 whenever the order is above 0 |
| Layout.CalculateSlabStart | main.cpp:66-69 | the masked address is aligned to the slab size and within one slab size below the address |
| Layout.MaskRecoversBase | main.cpp:66-69 | for an aligned base and an address inside its slab, masking returns that base |
| Layout.SlotAddress | main.cpp:181 | slot k lies after the slab's header, and for a nonzero object size the offset past the header divides exactly by object_size with quotient k, so the slot index is recovered from the address (slot 0 is also the address of main.cpp:197 and 217) |
| Layout.SlotWithinSlab | main.cpp:181 | slot k < slab_objects ends inside the slab |
| Layout.SlotMasksToSlab | main.cpp:181 | slot k of an aligned slab masks back to the slab and ends inside it |
| PageSource.Pages.AllocSlab | main.cpp:17-19 | a block aligned to 4096 · 2^order that was not outstanding becomes outstanding; the release log is unchanged |
| PageSource.Pages.FreeSlab | main.cpp:24-26 | an outstanding block stops being outstanding and is appended to the release log |
| SlabLists.LinkAtHead | main.cpp:100-125 | the header writes of insert_in_*_list: the same slabs keep headers, the slab gets null `previous`, the old head as `next` and its refcnt, the old head's `previous` points back to it with the rest of its header kept, and every other header is unchanged |
| SlabLists.LinkAtHeadFrame | main.cpp:100-125 | linking a slab at the head changes no refcnt |
| SlabLists.ClearPrevious | main.cpp:186-189 | the header write after a pop (also main.cpp:200-203): the same slabs keep headers, the new head's `previous` becomes null and every other header is unchanged |
| SlabLists.Unlink | main.cpp:81-98 | the header writes of remove_from_empty_list: the same slabs keep headers and the unlinked slab's links are both null |
| SlabLists.UnlinkFrame | main.cpp:81-98 | unlinking bridges the predecessor's `next` and the successor's `previous` over the slab, nulls its links, keeps every refcnt and changes no other header |
| SlabLists.HeadAfterUnlink | main.cpp:82-90 | a list head after unlinking becomes the slab's successor exactly when the slab was the head, and is unchanged otherwise |
| SlabLists.HeadAfterUnlinkIsFirst | main.cpp:82-90 | on a well-formed list, the head after unlinking a slab is the first slab of the list without it |
| SlabLists.PushKeepsList | main.cpp:100-107 | linking a slab that is on no list in front of a well-formed list yields the well-formed list [slab] + old |
| SlabLists.PushKeepsOther | main.cpp:100-125 | a push onto one list leaves a disjoint well-formed list well formed |
| SlabLists.PopKeepsLists | main.cpp:186-189 | taking the head off a list, and clearing its successor's `previous`, leaves the tail and two disjoint lists well formed with refcnts unchanged |
| SlabLists.UnlinkKeepsList | main.cpp:81-98 | unlinking position k of a well-formed list yields the well-formed list without that position |
| SlabLists.UnlinkFromLists | main.cpp:81-98 | unlinking a slab of empty_slab or partially_slab keeps all three lists well formed, removes exactly that slab, clears its links and keeps every refcnt |
| SlabLists.WithoutAt | main.cpp:81-98 | removing a slab from a list without repetitions drops exactly its position and keeps the others in order |
| SlabInvariant.LiveInRemove | main.cpp:240 | removing one live address lowers the count of its own slab by one and no other |
| SlabInvariant.LiveSlotInSlab | main.cpp:181 | a live address lies behind the header of an owned slab and ends inside it |
| SlabInvariant.AllocFromPartialKeeps | main.cpp:179-194 | the partial branch keeps the invariant; its address masks to the slab and ends inside it |
| SlabInvariant.AllocFromCompleteKeeps | main.cpp:195-213 | the complete_slab branch keeps the invariant; the slab had refcnt 0 and its address masks to it |
| SlabInvariant.AllocFromFreshSlabKeeps | main.cpp:214-228 | the fresh-slab branch keeps the invariant |
| SlabInvariant.FreeTarget | main.cpp:239-240 | the slab a live address masks to is owned, has refcnt ≥ 1 and is on partially_slab or empty_slab |
| SlabInvariant.FreeRelists | main.cpp:242-245 | a slab whose count reaches 0 moves to complete_slab, any other stays put, and list membership keeps matching refcnt |
| SlabInvariant.AccountFree | main.cpp:239-240 | after the refcnt decrement and removal of the address, every refcnt counts the remaining live addresses |
| SlabInvariant.FreeKeeps | main.cpp:237-246 | cache_free keeps the invariant |
| SlabInvariant.EmptyExactlyFree | main.cpp:45-47 | under the invariant, a slab is on complete_slab exactly when its refcnt is 0 |
| SlabInvariant.ShrinkKeeps | main.cpp:257-261 | releasing complete_slab removes exactly the slabs with refcnt 0 and keeps the invariant |
| SlabInvariant.ReleaseKeeps | main.cpp:158-167 | releasing all three lists leaves no slab, and the owned slabs were exactly those of the lists |
| SlabInvariant.RemoveFirst | main.cpp:237 | one occurrence of the freed address leaves the multiset of live addresses |
| SlabCache.Cache.Setup | main.cpp:135-149 | all heads null, no slab, no live address, order and capacity as derived, and the invariant holds |
| SlabCache.Cache.InsertInCompleteList | main.cpp:100-107 | the slab becomes the head of complete_slab, whose sequence becomes [slab] + old; the lists stay well formed and refcnts are kept |
| SlabCache.Cache.InsertInPartiallyList | main.cpp:109-116 | the same for partially_slab |
| SlabCache.Cache.InsertInEmptyList | main.cpp:118-125 | the same for empty_slab |
| SlabCache.Cache.PopPartiallyList | main.cpp:186-189 | partially_slab loses its head, its sequence becomes old[1..], and the lists stay well formed |
| SlabCache.Cache.PopCompleteList | main.cpp:200-203 | complete_slab loses its head, its sequence becomes old[1..], and the lists stay well formed |
| SlabCache.Cache.RemoveFromEmptyList | main.cpp:81-98 | the slab is taken out of whichever of empty_slab / partially_slab holds it, its links are nulled, the others keep their order, and refcnts are kept |
| SlabCache.Cache.UnlinkHeaders | main.cpp:81-98 | the pointer writes of remove_from_empty_list leave the header map equal to Unlink and move exactly the head the slab led to its successor |
| SlabCache.Cache.FreeList | main.cpp:71-79 | walking a list by `next` read before each release releases its slabs in list order, each once, and drops their headers |
| SlabCache.Cache.TakeObject | main.cpp:182 | the slab's refcnt goes up by one and no other refcnt changes |
| SlabCache.Cache.FillPartialHead | main.cpp:182-192 | the head of partially_slab gains one object and moves to empty_slab exactly when it reaches capacity |
| SlabCache.Cache.FillCompleteHead | main.cpp:198-211 | the head of complete_slab gains one object and goes to empty_slab at capacity, else to partially_slab |
| SlabCache.Cache.FileByRefcnt | main.cpp:205-211 | a slab on no list goes to empty_slab when its refcnt equals slab_objects, else to partially_slab |
| SlabCache.Cache.AllocFromPartial | main.cpp:179-194 | returns base + header + object_size · refcnt_before, refcnt rises by one, the slab moves to empty_slab exactly at capacity, and the invariant is kept |
| SlabCache.Cache.AllocFromComplete | main.cpp:195-213 | returns slot 0 of the head of complete_slab, which had refcnt 0 and now goes to empty_slab when slab_objects is 1 and to partially_slab otherwise |
| SlabCache.Cache.AllocFromFreshSlab | main.cpp:214-228 | a new aligned block from the page source gets refcnt 1 and hands out slot 0, and is filed as above |
| SlabCache.Cache.Alloc | main.cpp:177-230 | the branch is taken in priority order and the address ends inside its slab; the invariant is kept and the address is appended to the live ones |
| SlabCache.Cache.DropObject | main.cpp:240-245 | the slab's refcnt falls by one; at 0 it leaves its list for the front of complete_slab, otherwise no list changes |
| SlabCache.Cache.Free | main.cpp:237-246 | the slab found by masking loses one object and one occurrence of the address leaves the live ones; it moves to complete_slab exactly when its refcnt was 1; the page source is untouched and the invariant is kept |
| SlabCache.Cache.FreeCompleteList | main.cpp:257-261 | every slab of complete_slab is released in order and that list is left empty |
| SlabCache.Cache.Shrink | main.cpp:257-261 | exactly the slabs with refcnt 0 are released, each once, the head is nulled, and the other lists and live addresses are kept |
| SlabCache.Cache.FreeAllLists | main.cpp:158-167 | all three lists are released in order and their heads nulled |
| SlabCache.Cache.Release | main.cpp:158-167 | every slab the cache owned is released and no longer outstanding; the cache has no slab and no live address left |
| Scenarios.SlotReusedWhileLive | main.cpp:181-182 | with 41-byte objects, alloc, alloc, free the first, alloc returns the still-live second address again |
| Scenarios.TwoObjects | main.cpp:214-228 | two allocations on a fresh cache take slots 0 and 1 of one new slab |
| Scenarios.FreeFirstAllocAgain | main.cpp:237-246 | freeing slot 0 of a slab holding two leaves it on partially_slab with refcnt 1, so the next allocation hands out slot 1 again |
| Scenarios.FreedSlabIsReleased | main.cpp:257-261 | alloc, free and shrink on a fresh cache release its single slab and leave nothing outstanding |
| Scenarios.ShrinkTwice | main.cpp:257-261 | a second shrink right after a first releases nothing more |

## Left out

- `alloc_slab` / `free_slab` bodies (`aligned_alloc` and `free`):
  `PageSource.Pages` stands in for them. It is a bump allocator that
  always succeeds, with an outstanding set and a release log.
- Out-of-memory: the source never checks `alloc_slab`'s result, so the
  model has no failure path.
- `main`: a randomised driver using `rand`, `printf` and `std::set`, with
  diagnostic output only.
- Raw memory:
  - addresses are unbounded naturals, with no 64-bit bound;
  - headers are records in a map keyed by slab base, not bytes at that
    address;
  - slot memory is not modelled.
- Integer widths: `refcnt` is a `uint32_t` and `slab_objects` is a
  `size_t`. The invariant keeps refcnt at most slab_objects, which is at
  most 4072, so no wrap-around can occur and none is modelled.
- Aliasing between live addresses is not excluded. The source allows it,
  as shown in the introduction.
- SlabCache.Cache.Free: `ptr` must be one of the live addresses. In the
  source, this is the caller's promise that the pointer came from
  `cache_alloc` and was not freed since. Freeing any other address is
  undefined behaviour there and is not modelled.
- SlabCache.Cache.Release: after release, the ghost `live` sequence is
  empty. Objects still held by a client are dangling in the source, and the
  model does not track them further.
- Concurrency: none is present in the source.
