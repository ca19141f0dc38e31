/**
 The slab cache. Slabs come from the page source, all of one order, each
 aligned to its size; each begins with a slabStruct header. A cache keeps
 three intrusive lists of its slabs, whose names in main.cpp are misleading:
   - complete_slab: slabs with no live object (here freeSlabs),
   - partially_slab: slabs that are partly used (here partialSlabs),
   - empty_slab: slabs that were filled to capacity (here fullSlabs).
 An object lives at slab base + header + object_size * index, and the
 index is the slab's refcnt at allocation time, as in the source.
 */
module SlabCache {
  import opened Layout
  import opened SlabLists
  import opened PageSource
  import opened SlabInvariant

  class Cache {
    /** The page source every slab of this cache comes from. */
    const pages: Pages
    /** object_size, slab_order and slab_objects, fixed by cache_setup. */
    const objectSize: nat
    const slabOrder: nat
    const slabObjects: nat

    /** Head of the list of slabs with no live object (complete_slab). */
    var completeSlab: Option<nat>
    /** Head of the list of partly used slabs (partially_slab). */
    var partiallySlab: Option<nat>
    /** Head of the list of slabs that were filled to capacity (empty_slab). */
    var emptySlab: Option<nat>
    /** The header at the base of every slab the cache owns. */
    var headers: Headers

    /** The three lists, walked from their heads. */
    ghost var freeSlabs: seq<nat>
    ghost var partialSlabs: seq<nat>
    ghost var fullSlabs: seq<nat>
    /** Addresses returned by Alloc and not yet passed to Free, in order of allocation. */
    ghost var live: seq<nat>

    /** What cache_setup derived from the object size. */
    ghost predicate Configured()
    {
      && objectSize > 0
      && slabOrder == SlabOrderFor(objectSize) && slabOrder <= MaxOrder
      && slabObjects == SlabObjectsFor(objectSize) && slabObjects >= 1
      && HeaderSize + objectSize * slabObjects <= SlabBytes(slabOrder)
    }

    /** The three lists are well formed and no slab is on two of them. */
    ghost predicate ListsWellFormed()
      reads this
    {
      ThreeLists(headers, completeSlab, freeSlabs, partiallySlab, partialSlabs, emptySlab, fullSlabs)
    }

    ghost predicate Valid()
      reads this, pages
    {
      && Configured()
      && pages.Valid()
      && ListsWellFormed()
      && Counted(Refcnts(headers), freeSlabs, partialSlabs, fullSlabs, live,
                 pages.outstanding, objectSize, slabOrder, slabObjects)
    }

    /** cache_setup: no slabs yet, and the slab order and capacity derived from the object size. */
    constructor Setup(pages: Pages, objectSize: nat)
      requires pages.Valid()
      requires objectSize > 0
      requires HeaderSize + objectSize < SlabBytes(MaxOrder)
      ensures Valid()
      ensures this.pages == pages && this.objectSize == objectSize
      ensures completeSlab == None && partiallySlab == None && emptySlab == None
      ensures headers == map[] && freeSlabs == [] && partialSlabs == [] && fullSlabs == [] && live == []
      ensures slabOrder == BitLength((HeaderSize + objectSize) / PageSize)
      ensures slabObjects == if slabOrder > 0 then 1 else (PageSize - HeaderSize) / objectSize
      ensures slabObjects >= 1 && HeaderSize + objectSize < SlabBytes(slabOrder)
    {
      this.pages := pages;
      completeSlab := None;
      partiallySlab := None;
      emptySlab := None;
      this.objectSize := objectSize;
      var order := SmallestPowerOfTwo((HeaderSize + objectSize) / PageSize);
      slabOrder := order;
      slabObjects := if order > 0 then 1 else (PageSize - HeaderSize) / objectSize;
      headers := map[];
      freeSlabs, partialSlabs, fullSlabs, live := [], [], [], [];
      new;
      SlabHoldsHeaderAndObject(objectSize);
      SlabHoldsCapacity(objectSize);
      SlabOrderInRange(objectSize);
    }

    /** insert_in_complete_list: push the slab in front of the complete_slab list. */
    method InsertInCompleteList(slab: nat)
      requires ListsWellFormed()
      requires slab in headers && slab !in freeSlabs && slab !in partialSlabs && slab !in fullSlabs
      modifies this`headers, this`completeSlab, this`freeSlabs
      ensures ListsWellFormed()
      ensures freeSlabs == [slab] + old(freeSlabs) && completeSlab == Some(slab)
      ensures headers == LinkAtHead(old(headers), slab, old(completeSlab))
      ensures Refcnts(headers) == Refcnts(old(headers))
    {
      PushKeepsList(headers, freeSlabs, slab);
      LinkAtHeadFrame(headers, slab, completeSlab);
      PushKeepsOther(headers, freeSlabs, slab, partiallySlab, partialSlabs);
      PushKeepsOther(headers, freeSlabs, slab, emptySlab, fullSlabs);
      DisjointPush(slab, freeSlabs, partialSlabs);
      DisjointPush(slab, freeSlabs, fullSlabs);
      headers := headers[slab := headers[slab].(next := completeSlab, previous := None)];
      if completeSlab.Some? {
        headers := headers[completeSlab.value := headers[completeSlab.value].(previous := Some(slab))];
      }
      completeSlab := Some(slab);
      freeSlabs := [slab] + freeSlabs;
    }

    /** insert_in_partially_list: push the slab in front of the partially_slab list. */
    method InsertInPartiallyList(slab: nat)
      requires ListsWellFormed()
      requires slab in headers && slab !in freeSlabs && slab !in partialSlabs && slab !in fullSlabs
      modifies this`headers, this`partiallySlab, this`partialSlabs
      ensures ListsWellFormed()
      ensures partialSlabs == [slab] + old(partialSlabs) && partiallySlab == Some(slab)
      ensures headers == LinkAtHead(old(headers), slab, old(partiallySlab))
      ensures Refcnts(headers) == Refcnts(old(headers))
    {
      PushKeepsList(headers, partialSlabs, slab);
      LinkAtHeadFrame(headers, slab, partiallySlab);
      DisjointMembers(freeSlabs, partialSlabs);
      PushKeepsOther(headers, partialSlabs, slab, completeSlab, freeSlabs);
      DisjointPush(slab, partialSlabs, freeSlabs);
      DisjointPush(slab, partialSlabs, fullSlabs);
      PushKeepsOther(headers, partialSlabs, slab, emptySlab, fullSlabs);
      headers := headers[slab := headers[slab].(next := partiallySlab, previous := None)];
      if partiallySlab.Some? {
        headers := headers[partiallySlab.value := headers[partiallySlab.value].(previous := Some(slab))];
      }
      partiallySlab := Some(slab);
      partialSlabs := [slab] + partialSlabs;
    }

    /** insert_in_empty_list: push the slab in front of the empty_slab list. */
    method InsertInEmptyList(slab: nat)
      requires ListsWellFormed()
      requires slab in headers && slab !in freeSlabs && slab !in partialSlabs && slab !in fullSlabs
      modifies this`headers, this`emptySlab, this`fullSlabs
      ensures ListsWellFormed()
      ensures fullSlabs == [slab] + old(fullSlabs) && emptySlab == Some(slab)
      ensures headers == LinkAtHead(old(headers), slab, old(emptySlab))
      ensures Refcnts(headers) == Refcnts(old(headers))
    {
      PushKeepsList(headers, fullSlabs, slab);
      LinkAtHeadFrame(headers, slab, emptySlab);
      DisjointMembers(freeSlabs, fullSlabs);
      DisjointMembers(partialSlabs, fullSlabs);
      PushKeepsOther(headers, fullSlabs, slab, completeSlab, freeSlabs);
      DisjointPush(slab, fullSlabs, freeSlabs);
      DisjointPush(slab, fullSlabs, partialSlabs);
      PushKeepsOther(headers, fullSlabs, slab, partiallySlab, partialSlabs);
      headers := headers[slab := headers[slab].(next := emptySlab, previous := None)];
      if emptySlab.Some? {
        headers := headers[emptySlab.value := headers[emptySlab.value].(previous := Some(slab))];
      }
      emptySlab := Some(slab);
      fullSlabs := [slab] + fullSlabs;
    }

    /** The pop at the head of partially_slab in cache_alloc: the next slab becomes the head. */
    method PopPartiallyList()
      requires ListsWellFormed()
      requires partiallySlab.Some?
      modifies this`headers, this`partiallySlab, this`partialSlabs
      ensures ListsWellFormed()
      ensures old(partialSlabs) != [] && partialSlabs == old(partialSlabs)[1..]
      ensures var slab := old(partiallySlab).value;
        slab in headers && slab !in freeSlabs && slab !in partialSlabs && slab !in fullSlabs
      ensures headers == ClearPrevious(old(headers), partiallySlab)
      ensures Refcnts(headers) == Refcnts(old(headers))
    {
      DisjointMembers(freeSlabs, partialSlabs);
      PopKeepsLists(headers, partialSlabs, completeSlab, freeSlabs, emptySlab, fullSlabs);
      partiallySlab := headers[partiallySlab.value].next;
      if partiallySlab.Some? {
        headers := headers[partiallySlab.value := headers[partiallySlab.value].(previous := None)];
      }
      partialSlabs := partialSlabs[1..];
    }

    /** The pop at the head of complete_slab in cache_alloc: the next slab becomes the head. */
    method PopCompleteList()
      requires ListsWellFormed()
      requires completeSlab.Some?
      modifies this`headers, this`completeSlab, this`freeSlabs
      ensures ListsWellFormed()
      ensures old(freeSlabs) != [] && freeSlabs == old(freeSlabs)[1..]
      ensures var slab := old(completeSlab).value;
        slab in headers && slab !in freeSlabs && slab !in partialSlabs && slab !in fullSlabs
      ensures headers == ClearPrevious(old(headers), completeSlab)
      ensures Refcnts(headers) == Refcnts(old(headers))
    {
      PopKeepsLists(headers, freeSlabs, partiallySlab, partialSlabs, emptySlab, fullSlabs);
      completeSlab := headers[completeSlab.value].next;
      if completeSlab.Some? {
        headers := headers[completeSlab.value := headers[completeSlab.value].(previous := None)];
      }
      freeSlabs := freeSlabs[1..];
    }

    /**
     remove_from_empty_list: unlink a slab of the empty_slab or the
     partially_slab list, updating that list's head if the slab was first.
     */
    method RemoveFromEmptyList(slab: nat)
      requires ListsWellFormed()
      requires slab in fullSlabs || slab in partialSlabs
      modifies this`headers, this`emptySlab, this`partiallySlab, this`fullSlabs, this`partialSlabs
      ensures ListsWellFormed()
      ensures fullSlabs == Without(old(fullSlabs), slab)
      ensures partialSlabs == Without(old(partialSlabs), slab)
      ensures emptySlab == HeadAfterUnlink(old(headers), old(emptySlab), slab)
      ensures partiallySlab == HeadAfterUnlink(old(headers), old(partiallySlab), slab)
      ensures headers == Unlink(old(headers), slab)
      ensures headers[slab].previous == None && headers[slab].next == None
      ensures Refcnts(headers) == Refcnts(old(headers))
      ensures slab !in freeSlabs && slab !in partialSlabs && slab !in fullSlabs
    {
      UnlinkFromLists(headers, completeSlab, freeSlabs, partiallySlab, partialSlabs, emptySlab, fullSlabs, slab);
      NeighboursInLists(headers, completeSlab, freeSlabs, partiallySlab, partialSlabs, emptySlab, fullSlabs, slab);
      UnlinkHeaders(slab);
      fullSlabs := Without(fullSlabs, slab);
      partialSlabs := Without(partialSlabs, slab);
    }

    /**
     The pointer writes of remove_from_empty_list: bridge the slab's
     neighbours, move the head of the list it leads, and null its links.
     */
    method UnlinkHeaders(slab: nat)
      requires slab in headers
      requires headers[slab].previous.Some? ==> headers[slab].previous.value in headers && headers[slab].previous.value != slab
      requires headers[slab].next.Some? ==> headers[slab].next.value in headers && headers[slab].next.value != slab
      requires headers[slab].previous.None? <==> partiallySlab == Some(slab) || emptySlab == Some(slab)
      requires !(partiallySlab == Some(slab) && emptySlab == Some(slab))
      modifies this`headers, this`emptySlab, this`partiallySlab
      ensures headers == Unlink(old(headers), slab)
      ensures emptySlab == HeadAfterUnlink(old(headers), old(emptySlab), slab)
      ensures partiallySlab == HeadAfterUnlink(old(headers), old(partiallySlab), slab)
    {
      ghost var hs := headers;
      var previous, next := headers[slab].previous, headers[slab].next;
      if previous.Some? {
        headers := headers[previous.value := headers[previous.value].(next := next)];
      } else {
        if emptySlab == Some(slab) {
          emptySlab := next;
        } else if partiallySlab == Some(slab) {
          partiallySlab := next;
        }
      }
      ghost var bridged := headers;
      if next.Some? {
        headers := headers[next.value := headers[next.value].(previous := previous)];
      }
      ghost var rejoined := headers;
      headers := headers[slab := headers[slab].(previous := None, next := None)];
      UnlinkInSteps(hs, slab, bridged, rejoined, headers);
    }

    /**
     free_list: hand every slab of a list back to the page source, reading
     each header's `next` before its slab (and so its header) is gone.
     */
    method FreeList(list: Option<nat>, ghost slabs: seq<nat>)
      requires pages.Valid()
      requires ForwardLinked(headers, list, slabs) && Distinct(slabs)
      requires forall b :: b in slabs ==> b in pages.outstanding
      modifies this`headers, pages
      ensures pages.Valid()
      ensures headers == old(headers) - Elements(slabs)
      ensures pages.outstanding == old(pages.outstanding) - Elements(slabs)
      ensures pages.released == old(pages.released) + slabs
    {
      var current := list;
      ghost var k := 0;
      while current.Some?
        invariant 0 <= k <= |slabs| && current == First(slabs[k..])
        invariant headers == old(headers) - Elements(slabs[..k])
        invariant pages.Valid()
        invariant pages.outstanding == old(pages.outstanding) - Elements(slabs[..k])
        invariant pages.released == old(pages.released) + slabs[..k]
        decreases |slabs| - k
      {
        assert slabs[k] !in Elements(slabs[..k]) by {
          DistinctIndices(slabs);
        }
        var next := headers[current.value].next;
        pages.FreeSlab(current.value);
        headers := headers - {current.value};
        current := next;
        assert slabs[..k + 1] == slabs[..k] + [slabs[k]];
        assert slabs[k + 1..] == slabs[k..][1..];
        k := k + 1;
      }
      assert slabs[..k] == slabs;
    }

    /**
     cache_alloc: take the next slot of the first partly used slab; failing
     that, the first slot of the first slab with no live object; failing
     that, the first slot of a fresh slab from the page source. The slot
     index is the slab's refcnt before the allocation.
     */
    method Alloc() returns (addr: nat)
      requires Valid()
      modifies this`headers, this`completeSlab, this`partiallySlab, this`emptySlab
      modifies this`freeSlabs, this`partialSlabs, this`fullSlabs, this`live, pages
      ensures Valid()
      ensures live == old(live) + [addr]
      ensures pages.released == old(pages.released)
      ensures var slab := CalculateSlabStart(addr, slabOrder);
        slab in headers && slab + HeaderSize <= addr && addr + objectSize <= slab + SlabBytes(slabOrder)
      ensures old(partiallySlab).Some? ==>
        var slab := old(partiallySlab).value;
        && slab in old(headers)
        && addr == SlotAddress(slab, objectSize, old(headers)[slab].refcnt)
        && Adjusted(Refcnts(old(headers)), Refcnts(headers), slab, 1)
        && pages.outstanding == old(pages.outstanding)
        && freeSlabs == old(freeSlabs)
        && (if old(headers)[slab].refcnt + 1 == slabObjects
            then partialSlabs == old(partialSlabs)[1..] && fullSlabs == [slab] + old(fullSlabs)
            else partialSlabs == old(partialSlabs) && fullSlabs == old(fullSlabs))
      ensures old(partiallySlab).None? && old(completeSlab).Some? ==>
        var slab := old(completeSlab).value;
        && addr == SlotAddress(slab, objectSize, 0)
        && Adjusted(Refcnts(old(headers)), Refcnts(headers), slab, 1) && Refcnts(old(headers))[slab] == 0
        && pages.outstanding == old(pages.outstanding)
        && freeSlabs == old(freeSlabs)[1..]
        && (if slabObjects == 1
            then partialSlabs == old(partialSlabs) && fullSlabs == [slab] + old(fullSlabs)
            else partialSlabs == [slab] + old(partialSlabs) && fullSlabs == old(fullSlabs))
      ensures old(partiallySlab).None? && old(completeSlab).None? ==>
        var slab := CalculateSlabStart(addr, slabOrder);
        && slab !in old(pages.outstanding)
        && pages.outstanding == old(pages.outstanding) + {slab}
        && addr == SlotAddress(slab, objectSize, 0)
        && Refcnts(headers) == Refcnts(old(headers))[slab := 1]
        && freeSlabs == old(freeSlabs)
        && (if slabObjects == 1
            then partialSlabs == old(partialSlabs) && fullSlabs == [slab] + old(fullSlabs)
            else partialSlabs == [slab] + old(partialSlabs) && fullSlabs == old(fullSlabs))
    {
      if partiallySlab.Some? {
        addr := AllocFromPartial(partiallySlab.value);
      } else if completeSlab.Some? {
        addr := AllocFromComplete(completeSlab.value);
      } else {
        addr := AllocFromFreshSlab();
      }
      LiveSlotInSlab(Refcnts(headers), live, objectSize, slabOrder, slabObjects, addr);
    }

    /** The `refcnt += 1` of cache_alloc: one more object of the slab is live. */
    method TakeObject(slab: nat)
      requires ListsWellFormed()
      requires slab in headers
      modifies this`headers
      ensures ListsWellFormed()
      ensures Adjusted(Refcnts(old(headers)), Refcnts(headers), slab, 1)
      ensures slab in headers && headers[slab].refcnt == Refcnts(old(headers))[slab] + 1
    {
      var h := headers[slab].(refcnt := headers[slab].refcnt + 1);
      RefcntsAdd(headers, slab, h, 1);
      HeaderWriteKeepsLists(headers, slab, h, completeSlab, freeSlabs, partiallySlab, partialSlabs, emptySlab, fullSlabs);
      headers := headers[slab := h];
    }

    /**
     The list work of the first branch of cache_alloc: the head of
     partially_slab takes one more object and, once at capacity, is popped
     and pushed in front of empty_slab.
     */
    method FillPartialHead(slab: nat)
      requires ListsWellFormed()
      requires partiallySlab == Some(slab)
      modifies this`headers, this`partiallySlab, this`emptySlab, this`partialSlabs, this`fullSlabs
      ensures ListsWellFormed()
      ensures Adjusted(Refcnts(old(headers)), Refcnts(headers), slab, 1)
      ensures if Refcnts(old(headers))[slab] + 1 == slabObjects
        then partialSlabs == old(partialSlabs)[1..] && fullSlabs == [slab] + old(fullSlabs)
        else partialSlabs == old(partialSlabs) && fullSlabs == old(fullSlabs)
    {
      TakeObject(slab);
      ghost var bumped := headers;
      if headers[slab].refcnt == slabObjects {
        PopPartiallyList();
        InsertInEmptyList(slab);
      }
      assert Refcnts(headers) == Refcnts(bumped);
    }

    /**
     The list work of the second branch of cache_alloc: the head of
     complete_slab takes its first object, is popped, and is pushed in front
     of empty_slab if that fills it, else in front of partially_slab.
     */
    method FillCompleteHead(slab: nat)
      requires ListsWellFormed()
      requires completeSlab == Some(slab)
      modifies this`headers, this`completeSlab, this`partiallySlab, this`emptySlab
      modifies this`freeSlabs, this`partialSlabs, this`fullSlabs
      ensures ListsWellFormed()
      ensures Adjusted(Refcnts(old(headers)), Refcnts(headers), slab, 1)
      ensures freeSlabs == old(freeSlabs)[1..]
      ensures if Refcnts(old(headers))[slab] + 1 == slabObjects
        then partialSlabs == old(partialSlabs) && fullSlabs == [slab] + old(fullSlabs)
        else partialSlabs == [slab] + old(partialSlabs) && fullSlabs == old(fullSlabs)
    {
      TakeObject(slab);
      ghost var bumped := headers;
      PopCompleteList();
      FileByRefcnt(slab);
      assert Refcnts(headers) == Refcnts(bumped);
    }

    /**
     The push that ends the second and third branches of cache_alloc: a slab
     on no list goes in front of empty_slab if its refcnt is at capacity,
     else in front of partially_slab.
     */
    method FileByRefcnt(slab: nat)
      requires ListsWellFormed()
      requires slab in headers && slab !in freeSlabs && slab !in partialSlabs && slab !in fullSlabs
      modifies this`headers, this`partiallySlab, this`emptySlab, this`partialSlabs, this`fullSlabs
      ensures ListsWellFormed()
      ensures Refcnts(headers) == Refcnts(old(headers))
      ensures if old(headers)[slab].refcnt == slabObjects
        then partialSlabs == old(partialSlabs) && fullSlabs == [slab] + old(fullSlabs)
        else partialSlabs == [slab] + old(partialSlabs) && fullSlabs == old(fullSlabs)
    {
      if headers[slab].refcnt == slabObjects {
        InsertInEmptyList(slab);
      } else {
        InsertInPartiallyList(slab);
      }
    }

    /**
     The first branch of cache_alloc: the slot at index refcnt of the head of
     partially_slab.
     */
    method AllocFromPartial(slab: nat) returns (addr: nat)
      requires Valid()
      requires partiallySlab == Some(slab)
      modifies this`headers, this`partiallySlab, this`emptySlab, this`partialSlabs, this`fullSlabs, this`live
      ensures Valid()
      ensures live == old(live) + [addr]
      ensures slab in old(headers) && addr == SlotAddress(slab, objectSize, old(headers)[slab].refcnt)
      ensures CalculateSlabStart(addr, slabOrder) == slab && addr + objectSize <= slab + SlabBytes(slabOrder)
      ensures Adjusted(Refcnts(old(headers)), Refcnts(headers), slab, 1)
      ensures if old(headers)[slab].refcnt + 1 == slabObjects
        then partialSlabs == old(partialSlabs)[1..] && fullSlabs == [slab] + old(fullSlabs)
        else partialSlabs == old(partialSlabs) && fullSlabs == old(fullSlabs)
    {
      ghost var ps0, xs0, live0 := partialSlabs, fullSlabs, live;
      ghost var rc0 := Refcnts(headers);
      RefcntAt(headers, slab);
      addr := SlotAddress(slab, objectSize, headers[slab].refcnt);
      FillPartialHead(slab);
      live := live0 + [addr];
      AllocFromPartialKeeps(objectSize, slabOrder, slabObjects, pages.outstanding, rc0, Refcnts(headers),
                            freeSlabs, ps0, xs0, partialSlabs, fullSlabs, live0, live, slab, addr);
    }

    /**
     The second branch of cache_alloc: the first slot of the head of
     complete_slab.
     */
    method AllocFromComplete(slab: nat) returns (addr: nat)
      requires Valid()
      requires partiallySlab.None? && completeSlab == Some(slab)
      modifies this`headers, this`completeSlab, this`partiallySlab, this`emptySlab
      modifies this`freeSlabs, this`partialSlabs, this`fullSlabs, this`live
      ensures Valid()
      ensures live == old(live) + [addr]
      ensures addr == SlotAddress(slab, objectSize, 0)
      ensures CalculateSlabStart(addr, slabOrder) == slab && addr + objectSize <= slab + SlabBytes(slabOrder)
      ensures Adjusted(Refcnts(old(headers)), Refcnts(headers), slab, 1) && Refcnts(old(headers))[slab] == 0
      ensures freeSlabs == old(freeSlabs)[1..]
      ensures if slabObjects == 1
        then partialSlabs == old(partialSlabs) && fullSlabs == [slab] + old(fullSlabs)
        else partialSlabs == [slab] + old(partialSlabs) && fullSlabs == old(fullSlabs)
    {
      ghost var fs0, ps0, xs0, live0 := freeSlabs, partialSlabs, fullSlabs, live;
      ghost var rc0 := Refcnts(headers);
      addr := slab + HeaderSize;
      FillCompleteHead(slab);
      live := live0 + [addr];
      AllocFromCompleteKeeps(objectSize, slabOrder, slabObjects, pages.outstanding, rc0, Refcnts(headers),
                             fs0, ps0, xs0, freeSlabs, partialSlabs, fullSlabs, live0, live, slab, addr);
    }

    /**
     The third branch of cache_alloc: a fresh slab from alloc_slab with
     refcnt 1, pushed in front of empty_slab or partially_slab.
     */
    method AllocFromFreshSlab() returns (addr: nat)
      requires Valid()
      requires partiallySlab.None? && completeSlab.None?
      modifies this`headers, this`partiallySlab, this`emptySlab, this`partialSlabs, this`fullSlabs, this`live, pages
      ensures Valid()
      ensures live == old(live) + [addr]
      ensures pages.released == old(pages.released)
      ensures var slab := CalculateSlabStart(addr, slabOrder);
        && slab !in old(pages.outstanding)
        && pages.outstanding == old(pages.outstanding) + {slab}
        && addr == SlotAddress(slab, objectSize, 0)
        && addr + objectSize <= slab + SlabBytes(slabOrder)
        && Refcnts(headers) == Refcnts(old(headers))[slab := 1]
        && (if slabObjects == 1
            then partialSlabs == old(partialSlabs) && fullSlabs == [slab] + old(fullSlabs)
            else partialSlabs == [slab] + old(partialSlabs) && fullSlabs == old(fullSlabs))
    {
      ghost var out0 := pages.outstanding;
      var current := pages.AllocSlab(slabOrder);
      ghost var hs0, ps0, xs0, live0 := headers, partialSlabs, fullSlabs, live;
      ghost var rc0 := Refcnts(hs0);
      addr := current + HeaderSize;
      live := live0 + [addr];
      headers := headers[current := SlabHeader(None, None, 1)];
      RefcntsUpdate(hs0, current, headers[current]);
      ghost var rc1 := Refcnts(headers);
      AllocFromFreshSlabKeeps(objectSize, slabOrder, slabObjects, out0, rc0, rc1, freeSlabs, ps0, xs0,
                              if slabObjects == 1 then ps0 else [current] + ps0,
                              if slabObjects == 1 then [current] + xs0 else xs0, live0, current, addr);
      HeaderWriteKeepsLists(hs0, current, headers[current], completeSlab, freeSlabs, partiallySlab, partialSlabs, emptySlab, fullSlabs);
      if headers[current].refcnt == slabObjects {
        InsertInEmptyList(current);
      } else {
        InsertInPartiallyList(current);
      }
      assert Refcnts(headers) == rc1;
    }

    /**
     The list work of cache_free: the slab loses one object and, when none is
     left, leaves partially_slab or empty_slab (remove_from_empty_list) and
     goes in front of complete_slab; otherwise it stays on its list.
     */
    method DropObject(slab: nat)
      requires ListsWellFormed()
      requires slab in partialSlabs || slab in fullSlabs
      requires slab in headers && headers[slab].refcnt >= 1
      modifies this`headers, this`completeSlab, this`partiallySlab, this`emptySlab
      modifies this`freeSlabs, this`partialSlabs, this`fullSlabs
      ensures ListsWellFormed()
      ensures Adjusted(Refcnts(old(headers)), Refcnts(headers), slab, -1)
      ensures if Refcnts(old(headers))[slab] == 1
        then && freeSlabs == [slab] + old(freeSlabs)
             && partialSlabs == Without(old(partialSlabs), slab)
             && fullSlabs == Without(old(fullSlabs), slab)
        else freeSlabs == old(freeSlabs) && partialSlabs == old(partialSlabs) && fullSlabs == old(fullSlabs)
    {
      var h := headers[slab].(refcnt := headers[slab].refcnt - 1);
      RefcntsAdd(headers, slab, h, -1);
      HeaderWriteKeepsLists(headers, slab, h, completeSlab, freeSlabs, partiallySlab, partialSlabs, emptySlab, fullSlabs);
      headers := headers[slab := h];
      ghost var dropped := headers;
      if headers[slab].refcnt == 0 {
        RemoveFromEmptyList(slab);
        InsertInCompleteList(slab);
      }
      assert Refcnts(headers) == Refcnts(dropped);
    }

    /**
     cache_free: the slab is found by masking the address; its refcnt drops
     by one, and a slab left with no live object moves to complete_slab.
     */
    method Free(ptr: nat)
      requires Valid()
      requires ptr in live
      modifies this`headers, this`completeSlab, this`partiallySlab, this`emptySlab
      modifies this`freeSlabs, this`partialSlabs, this`fullSlabs, this`live
      ensures Valid() && unchanged(pages)
      ensures live == RemoveFirst(old(live), ptr)
      ensures var slab := CalculateSlabStart(ptr, slabOrder);
        && Adjusted(Refcnts(old(headers)), Refcnts(headers), slab, -1)
        && if Refcnts(old(headers))[slab] == 1
           then && freeSlabs == [slab] + old(freeSlabs)
                && partialSlabs == Without(old(partialSlabs), slab)
                && fullSlabs == Without(old(fullSlabs), slab)
           else freeSlabs == old(freeSlabs) && partialSlabs == old(partialSlabs) && fullSlabs == old(fullSlabs)
    {
      var slab := CalculateSlabStart(ptr, slabOrder);
      ghost var fs0, ps0, xs0, live0 := freeSlabs, partialSlabs, fullSlabs, live;
      ghost var rc0 := Refcnts(headers);
      FreeTarget(rc0, fs0, ps0, xs0, live0, pages.outstanding, objectSize, slabOrder, slabObjects, ptr);
      RefcntAt(headers, slab);
      DropObject(slab);
      live := RemoveFirst(live0, ptr);
      FreeKeeps(objectSize, slabOrder, slabObjects, pages.outstanding, rc0, Refcnts(headers),
                fs0, ps0, xs0, freeSlabs, partialSlabs, fullSlabs, live0, live, ptr, slab);
    }

    /**
     The list work of cache_shrink: hand every slab of complete_slab back to
     the page source and leave that list empty.
     */
    method FreeCompleteList()
      requires ListsWellFormed() && pages.Valid()
      requires forall b :: b in freeSlabs ==> b in pages.outstanding
      modifies this`headers, this`completeSlab, this`freeSlabs, pages
      ensures ListsWellFormed() && pages.Valid()
      ensures completeSlab == None && freeSlabs == []
      ensures headers == old(headers) - Elements(old(freeSlabs))
      ensures pages.outstanding == old(pages.outstanding) - Elements(old(freeSlabs))
      ensures pages.released == old(pages.released) + old(freeSlabs)
    {
      ghost var hs0, fs0 := headers, freeSlabs;
      DisjointMembers(freeSlabs, partialSlabs);
      DisjointMembers(freeSlabs, fullSlabs);
      DropKeepsList(hs0, partiallySlab, partialSlabs, Elements(fs0));
      DropKeepsList(hs0, emptySlab, fullSlabs, Elements(fs0));
      FreeList(completeSlab, freeSlabs);
      completeSlab := None;
      freeSlabs := [];
    }

    /**
     cache_shrink: every slab of complete_slab, which are exactly the slabs
     with no live object, goes back to the page source; the other two lists
     and every live address stay as they are.
     */
    method Shrink()
      requires Valid()
      modifies this`headers, this`completeSlab, this`freeSlabs, pages
      ensures Valid()
      ensures completeSlab == None && freeSlabs == []
      ensures forall b :: b in Refcnts(old(headers)) ==> (b in headers <==> Refcnts(old(headers))[b] != 0)
      ensures headers == old(headers) - Elements(old(freeSlabs))
      ensures pages.outstanding == old(pages.outstanding) - Elements(old(freeSlabs))
      ensures pages.released == old(pages.released) + old(freeSlabs)
    {
      ghost var hs0, fs0, out0 := headers, freeSlabs, pages.outstanding;
      ghost var rc0 := Refcnts(headers);
      ListedOwned(rc0, freeSlabs, partialSlabs, fullSlabs, slabOrder, pages.outstanding);
      FreeCompleteList();
      RefcntsDrop(hs0, headers, Elements(fs0));
      RefcntKeys(headers);
      ShrinkKeeps(objectSize, slabOrder, slabObjects, out0, pages.outstanding, rc0, Refcnts(headers),
                  fs0, partialSlabs, fullSlabs, live);
    }

    /**
     The list work of cache_release: hand every slab of the three lists back
     to the page source and leave all three empty.
     */
    method FreeAllLists()
      requires ListsWellFormed() && pages.Valid()
      requires forall b :: b in freeSlabs || b in partialSlabs || b in fullSlabs ==> b in pages.outstanding
      modifies this`headers, this`completeSlab, this`partiallySlab, this`emptySlab
      modifies this`freeSlabs, this`partialSlabs, this`fullSlabs, pages
      ensures ListsWellFormed() && pages.Valid()
      ensures completeSlab == None && partiallySlab == None && emptySlab == None
      ensures freeSlabs == [] && partialSlabs == [] && fullSlabs == []
      ensures headers == old(headers) - (Elements(old(freeSlabs)) + Elements(old(partialSlabs)) + Elements(old(fullSlabs)))
      ensures pages.outstanding
           == old(pages.outstanding) - Elements(old(freeSlabs)) - Elements(old(partialSlabs)) - Elements(old(fullSlabs))
      ensures pages.released == old(pages.released) + old(freeSlabs) + old(partialSlabs) + old(fullSlabs)
    {
      ghost var hs0, fs0, ps0, xs0 := headers, freeSlabs, partialSlabs, fullSlabs;
      DisjointMembers(fs0, ps0);
      DisjointMembers(fs0, xs0);
      DisjointMembers(ps0, xs0);
      FreeList(completeSlab, freeSlabs);
      DropKeepsList(hs0, partiallySlab, ps0, Elements(fs0));
      DropKeepsList(hs0, emptySlab, xs0, Elements(fs0));
      ghost var hs1 := headers;
      DropKeepsList(hs1, emptySlab, xs0, Elements(ps0));
      FreeList(partiallySlab, partialSlabs);
      FreeList(emptySlab, fullSlabs);
      DropInTurn(hs0, Elements(fs0), Elements(ps0), Elements(xs0));
      completeSlab, partiallySlab, emptySlab := None, None, None;
      freeSlabs, partialSlabs, fullSlabs := [], [], [];
      NoListsWellFormed(headers);
    }

    /**
     cache_release: every slab of the three lists goes back to the page
     source and the cache is left with no slab; no address handed out
     before stays valid.
     */
    method Release()
      requires Valid()
      modifies this`headers, this`completeSlab, this`partiallySlab, this`emptySlab
      modifies this`freeSlabs, this`partialSlabs, this`fullSlabs, this`live, pages
      ensures Valid()
      ensures completeSlab == None && partiallySlab == None && emptySlab == None
      ensures headers == map[] && freeSlabs == [] && partialSlabs == [] && fullSlabs == [] && live == []
      ensures pages.outstanding == old(pages.outstanding) - old(headers).Keys
      ensures pages.released == old(pages.released) + old(freeSlabs) + old(partialSlabs) + old(fullSlabs)
    {
      ghost var hs0, fs0, ps0, xs0, live0, out0 := headers, freeSlabs, partialSlabs, fullSlabs, live, pages.outstanding;
      ghost var rc0 := Refcnts(headers);
      ListedOwned(rc0, freeSlabs, partialSlabs, fullSlabs, slabOrder, pages.outstanding);
      FreeAllLists();
      live := [];
      RefcntsDrop(hs0, headers, Elements(fs0) + Elements(ps0) + Elements(xs0));
      RefcntKeys(hs0);
      RefcntKeys(headers);
      ReleaseKeeps(objectSize, slabOrder, slabObjects, out0, pages.outstanding, rc0, Refcnts(headers),
                   fs0, ps0, xs0, live0);
    }
  }
}
