/**
 Short runs of the cache as a client would drive it, each stated by what
 the cache's contracts make of it.

 The small lemmas at the end (AppendedTwice, FreedHead, AppendedTo,
 NothingLeft, AppendedToEmpty, OneSlabLeft) are sequence, set and map
 steps of these runs, stated apart so that the verifier does not have to
 search for them inside a long method. They keep verification cheap and
 say nothing about the allocator on their own.
 */
module Scenarios {
  import opened Layout
  import opened SlabLists
  import opened PageSource
  import opened SlabInvariant
  import opened SlabCache

  /**
   With 41-byte objects, allocate twice, free the first object and allocate
   again: the slot index is the refcnt, so the third allocation returns the
   address of the second object, which is still live.
   */
  method SlotReusedWhileLive() returns (c: Cache, first: nat, second: nat, third: nat)
    ensures c.Valid()
    ensures first != second && third == second
    ensures |c.live| == 2 && c.live[0] == second && c.live[1] == third
  {
    ghost var slab;
    c, first, second, slab := TwoObjects();
    third := FreeFirstAllocAgain(c, first, second, slab);
  }

  /** A fresh cache for 41-byte objects after two allocations: both come from one new slab, at slots 0 and 1. */
  method TwoObjects() returns (c: Cache, first: nat, second: nat, ghost slab: nat)
    ensures fresh(c) && fresh(c.pages)
    ensures c.Valid() && c.slabOrder == 0 && c.slabObjects == 99 && c.objectSize == 41
    ensures c.live == [first, second]
    ensures first == SlotAddress(slab, 41, 0) && second == SlotAddress(slab, 41, 1)
    ensures CalculateSlabStart(first, 0) == slab
    ensures c.partiallySlab == Some(slab) && slab in c.headers && c.headers[slab].refcnt == 2
  {
    var pages := new Pages();
    c := new Cache.Setup(pages, 41);
    assert c.slabOrder == 0 && c.slabObjects == 99;
    first := c.Alloc();
    ghost var live1 := c.live;
    slab := CalculateSlabStart(first, c.slabOrder);
    assert c.partialSlabs == [slab];
    RefcntAt(c.headers, slab);
    second := c.Alloc();
    RefcntAt(c.headers, slab);
    AppendedTwice([], live1, c.live, first, second);
  }

  /** Freeing the object at slot 0 of a slab holding two and allocating again hands out slot 1 a second time. */
  method FreeFirstAllocAgain(c: Cache, first: nat, second: nat, ghost slab: nat) returns (third: nat)
    requires c.Valid() && c.slabOrder == 0 && c.slabObjects == 99 && c.objectSize == 41
    requires c.live == [first, second]
    requires first == SlotAddress(slab, 41, 0) && second == SlotAddress(slab, 41, 1)
    requires CalculateSlabStart(first, 0) == slab
    requires c.partiallySlab == Some(slab) && slab in c.headers && c.headers[slab].refcnt == 2
    modifies c`headers, c`completeSlab, c`partiallySlab, c`emptySlab
    modifies c`freeSlabs, c`partialSlabs, c`fullSlabs, c`live, c.pages
    ensures c.Valid()
    ensures third == second
    ensures |c.live| == 2 && c.live[0] == second && c.live[1] == third
  {
    ghost var live0 := c.live;
    RefcntAt(c.headers, slab);
    c.Free(first);
    ghost var live1 := c.live;
    FreedHead(live0, live1, first, second);
    RefcntAt(c.headers, slab);
    third := c.Alloc();
    AppendedTo(live1, c.live, second, third);
  }

  /**
   An object allocated and freed leaves its slab on complete_slab, and a
   shrink hands that slab back to the page source, which then holds nothing
   for the cache.
   */
  method FreedSlabIsReleased() returns (c: Cache, addr: nat)
    ensures c.Valid()
    ensures c.headers == map[]
    ensures c.pages.released == [CalculateSlabStart(addr, c.slabOrder)]
    ensures c.pages.outstanding == {}
  {
    var pages := new Pages();
    c := new Cache.Setup(pages, 100);
    RefcntKeys(c.headers);
    ghost var rc0 := Refcnts(c.headers);
    addr := c.Alloc();
    ghost var slab := CalculateSlabStart(addr, c.slabOrder);
    ghost var rc1 := Refcnts(c.headers);
    c.Free(addr);
    OneSlabLeft(rc0, rc1, Refcnts(c.headers), slab);
    RefcntKeys(c.headers);
    assert c.freeSlabs == [slab];
    ghost var hs2, fs2, out2, released2 := c.headers, c.freeSlabs, pages.outstanding, pages.released;
    c.Shrink();
    NothingLeft(hs2, c.headers, out2, pages.outstanding, fs2, slab);
    AppendedToEmpty(released2, pages.released, fs2, slab);
  }

  /** A second shrink right after a first finds complete_slab empty and releases nothing. */
  method ShrinkTwice(c: Cache)
    requires c.Valid()
    modifies c`headers, c`completeSlab, c`freeSlabs, c.pages
    ensures c.Valid()
    ensures c.pages.released == old(c.pages.released) + old(c.freeSlabs)
    ensures c.completeSlab == None && c.freeSlabs == []
  {
    c.Shrink();
    ghost var released := c.pages.released;
    c.Shrink();
    assert c.pages.released == released;
  }

  /** Two appends to an empty sequence give the pair. */
  lemma AppendedTwice(s0: seq<nat>, s1: seq<nat>, s2: seq<nat>, a: nat, b: nat)
    requires s0 == [] && s1 == s0 + [a] && s2 == s1 + [b]
    ensures s2 == [a, b]
  {
  }

  /** Removing the first of two different addresses leaves the second. */
  lemma FreedHead(s0: seq<nat>, s1: seq<nat>, a: nat, b: nat)
    requires s0 == [a, b] && a != b && s1 == RemoveFirst(s0, a)
    ensures s1 == [b]
  {
    assert IndexOf(s0, a) == 0;
  }

  /** An append to a one-element sequence gives the pair. */
  lemma AppendedTo(s1: seq<nat>, s2: seq<nat>, a: nat, b: nat)
    requires s1 == [a] && s2 == s1 + [b]
    ensures |s2| == 2 && s2[0] == a && s2[1] == b
  {
  }

  /** A cache whose one slab is released has no header and no block left. */
  lemma NothingLeft(hs: Headers, hs': Headers, out: set<nat>, out': set<nat>, fs: seq<nat>, x: nat)
    requires fs == [x] && hs.Keys == {x} && hs' == hs - Elements(fs)
    requires out == {} + {x} && out' == out - Elements(fs)
    ensures hs' == map[] && out' == {}
  {
    assert Elements([x]) == {x};
    assert hs'.Keys == {};
  }

  /** Appending the one-slab list to an empty log gives that slab alone. */
  lemma AppendedToEmpty(s0: seq<nat>, s1: seq<nat>, t: seq<nat>, x: nat)
    requires s0 == [] && t == [x] && s1 == s0 + t
    ensures s1 == [x]
  {
  }

  /** One slab taken fresh with one object and then freed is the only slab, with no object. */
  lemma OneSlabLeft(rc0: RefcntMap, rc1: RefcntMap, rc2: RefcntMap, x: nat)
    requires rc0.Keys == {} && rc1 == rc0[x := 1] && Adjusted(rc1, rc2, x, -1)
    ensures rc2.Keys == {x}
  {
  }
}
