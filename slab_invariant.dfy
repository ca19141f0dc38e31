/**
 The bookkeeping invariant of a slab cache, stated over values: the refcnt
 map (slab base to refcnt), the three lists as sequences of slab bases, the
 live addresses and the blocks held from the page source. Each branch of
 cache_alloc and cache_free is shown here to keep it.
 */
module SlabInvariant {
  import opened Layout
  import opened SlabLists

  /** How many of the addresses in s mask to the slab at base. */
  ghost function LiveIn(s: seq<nat>, base: nat, order: nat): nat
  {
    if s == [] then 0
    else LiveIn(s[..|s| - 1], base, order) + (if CalculateSlabStart(s[|s| - 1], order) == base then 1 else 0)
  }

  /** A slab that no address in s masks to accounts for none of them. */
  lemma {:induction false} LiveInAbsent(s: seq<nat>, base: nat, order: nat)
    requires forall a :: a in s ==> CalculateSlabStart(a, order) != base
    ensures LiveIn(s, base, order) == 0
  {
    if s != [] {
      assert forall a :: a in s[..|s| - 1] ==> a in s;
      LiveInAbsent(s[..|s| - 1], base, order);
    }
  }

  /** The slab an address of s masks to accounts for at least that address. */
  lemma {:induction false} LiveInPositive(s: seq<nat>, a: nat, order: nat)
    requires a in s
    ensures LiveIn(s, CalculateSlabStart(a, order), order) >= 1
  {
    if s[|s| - 1] != a {
      assert s == s[..|s| - 1] + [s[|s| - 1]];
      LiveInPositive(s[..|s| - 1], a, order);
    }
  }

  /** Dropping the address at position i lowers the count of its own slab by one and no other. */
  lemma {:induction false} LiveInRemove(s: seq<nat>, i: nat, base: nat, order: nat)
    requires i < |s|
    ensures LiveIn(s[..i] + s[i + 1..], base, order) + (if CalculateSlabStart(s[i], order) == base then 1 else 0)
         == LiveIn(s, base, order)
  {
    var t := s[..i] + s[i + 1..];
    if i == |s| - 1 {
      assert t == s[..|s| - 1];
    } else {
      var s' := s[..|s| - 1];
      LiveInRemove(s', i, base, order);
      assert t[..|t| - 1] == s'[..i] + s'[i + 1..];
      assert t[|t| - 1] == s[|s| - 1];
    }
  }

  /** Appending an address adds one to the count of the slab it masks to and to no other. */
  lemma LiveInAppend(s: seq<nat>, a: nat, base: nat, order: nat)
    ensures LiveIn(s + [a], base, order) == LiveIn(s, base, order) + (if CalculateSlabStart(a, order) == base then 1 else 0)
  {
    assert (s + [a])[..|s|] == s;
  }

  /**
   The invariant of the cache's bookkeeping is stated over its refcnt map
   (slab base to refcnt), which the list operations leave unchanged.
   */
  type RefcntMap = map<nat, nat>

  /** Every slab the cache owns is on one of the three lists. */
  ghost predicate Listed(rc: RefcntMap, fs: seq<nat>, ps: seq<nat>, xs: seq<nat>)
  {
    rc.Keys == Elements(fs) + Elements(ps) + Elements(xs)
  }

  /**
   List membership agrees with refcnt: no live object on a slab of
   complete_slab, some but not all slots live on a slab of partially_slab,
   at least one live on a slab of empty_slab.
   */
  ghost predicate RefcntsMatch(rc: RefcntMap, fs: seq<nat>, ps: seq<nat>, xs: seq<nat>, objects: nat)
  {
    && (forall b :: b in fs ==> b in rc && rc[b] == 0)
    && (forall b :: b in ps ==> b in rc && 0 < rc[b] < objects)
    && (forall b :: b in xs ==> b in rc && 0 < rc[b] <= objects)
  }

  /** Every slab is a block of the page source, aligned to the slab size. */
  ghost predicate Owned(rc: RefcntMap, order: nat, outstanding: set<nat>)
  {
    forall b :: b in rc ==> b % SlabBytes(order) == 0 && b in outstanding
  }

  /** a is one of the object slots of the slab it masks to. */
  ghost predicate IsSlot(a: nat, objectSize: nat, order: nat, objects: nat)
  {
    exists k :: 0 <= k < objects && a == SlotAddress(CalculateSlabStart(a, order), objectSize, k)
  }

  /** Every live address is a slot of an owned slab, and each refcnt counts the live addresses of its slab. */
  ghost predicate Accounted(rc: RefcntMap, live: seq<nat>, objectSize: nat, order: nat, objects: nat)
  {
    && (forall a :: a in live ==> CalculateSlabStart(a, order) in rc && IsSlot(a, objectSize, order, objects))
    && (forall b :: b in rc ==> rc[b] == LiveIn(live, b, order))
  }

  /** The whole bookkeeping invariant of a cache with the given geometry. */
  ghost predicate Counted(rc: RefcntMap, fs: seq<nat>, ps: seq<nat>, xs: seq<nat>, live: seq<nat>,
                          outstanding: set<nat>, objectSize: nat, order: nat, objects: nat)
  {
    && Listed(rc, fs, ps, xs)
    && RefcntsMatch(rc, fs, ps, xs, objects)
    && Owned(rc, order, outstanding)
    && Accounted(rc, live, objectSize, order, objects)
  }

  /** Slot k of an aligned slab is a slot in the sense of IsSlot. */
  lemma SlotOfSlab(base: nat, objectSize: nat, order: nat, objects: nat, k: nat)
    requires base % SlabBytes(order) == 0
    requires objectSize > 0 && k < objects
    requires HeaderSize + objectSize * objects <= SlabBytes(order)
    ensures IsSlot(SlotAddress(base, objectSize, k), objectSize, order, objects)
  {
    SlotMasksToSlab(base, objectSize, objects, order, k);
  }

  /** A slot lies behind the header of the slab it masks to and ends inside that slab. */
  lemma SlotInSlab(a: nat, objectSize: nat, order: nat, objects: nat)
    requires IsSlot(a, objectSize, order, objects)
    requires HeaderSize + objectSize * objects <= SlabBytes(order)
    ensures CalculateSlabStart(a, order) + HeaderSize <= a
    ensures a + objectSize <= CalculateSlabStart(a, order) + SlabBytes(order)
  {
    var slab := CalculateSlabStart(a, order);
    var k :| 0 <= k < objects && a == SlotAddress(slab, objectSize, k);
    SlotWithinSlab(objectSize, objects, order, k);
    var offset := objectSize * k;
    assert a == slab + HeaderSize + offset;
  }

  /** A live address lies behind the header of a slab the cache owns and ends inside that slab. */
  lemma LiveSlotInSlab(rc: RefcntMap, live: seq<nat>, objectSize: nat, order: nat, objects: nat, a: nat)
    requires Accounted(rc, live, objectSize, order, objects)
    requires HeaderSize + objectSize * objects <= SlabBytes(order)
    requires a in live
    ensures var slab := CalculateSlabStart(a, order);
      slab in rc && slab + HeaderSize <= a && a + objectSize <= slab + SlabBytes(order)
  {
    SlotInSlab(a, objectSize, order, objects);
  }

  /**
   After an allocation from the slab at base, whose refcnt went from its
   count of live addresses to one more, every refcnt counts the live
   addresses including the new one.
   */
  lemma AccountAlloc(rc0: RefcntMap, rc: RefcntMap, live: seq<nat>, addr: nat, base: nat,
                     objectSize: nat, order: nat, objects: nat)
    requires Accounted(rc0, live, objectSize, order, objects)
    requires rc == rc0[base := LiveIn(live, base, order) + 1]
    requires CalculateSlabStart(addr, order) == base && IsSlot(addr, objectSize, order, objects)
    ensures Accounted(rc, live + [addr], objectSize, order, objects)
  {
    forall b | b in rc ensures rc[b] == LiveIn(live + [addr], b, order) {
      LiveInAppend(live, addr, b, order);
    }
  }

  /**
   The first branch of cache_alloc keeps the invariant: the head of
   partially_slab gains its slot at index refcnt and, once at capacity,
   moves to the front of empty_slab.
   */
  lemma AllocFromPartialKeeps(objectSize: nat, order: nat, objects: nat, outstanding: set<nat>,
                              rc0: RefcntMap, rc: RefcntMap, fs: seq<nat>, ps: seq<nat>, xs: seq<nat>,
                              ps': seq<nat>, xs': seq<nat>, live: seq<nat>, live': seq<nat>, base: nat, addr: nat)
    requires objectSize > 0 && HeaderSize + objectSize * objects <= SlabBytes(order)
    requires Counted(rc0, fs, ps, xs, live, outstanding, objectSize, order, objects)
    requires ps != [] && ps[0] == base && Distinct(ps) && Disjoint(fs, ps) && Disjoint(ps, xs)
    requires Adjusted(rc0, rc, base, 1)
    requires addr == SlotAddress(base, objectSize, rc0[base]) && live' == live + [addr]
    requires if rc0[base] + 1 == objects then ps' == ps[1..] && xs' == [base] + xs
             else ps' == ps && xs' == xs
    ensures CalculateSlabStart(addr, order) == base && addr + objectSize <= base + SlabBytes(order)
    ensures Counted(rc, fs, ps', xs', live', outstanding, objectSize, order, objects)
  {
    DisjointMembers(fs, ps);
    DisjointMembers(ps, xs);
    DistinctTail(ps);
    ElementsOfTail(ps);
    ElementsOfPush(base, xs);
    SlotMasksToSlab(base, objectSize, objects, order, rc0[base]);
    SlotOfSlab(base, objectSize, order, objects, rc0[base]);
    AccountAlloc(rc0, rc, live, addr, base, objectSize, order, objects);
  }

  /**
   The second branch of cache_alloc keeps the invariant: the head of
   complete_slab gains its first slot and moves to the front of empty_slab
   when one object fills it, else to the front of partially_slab.
   */
  lemma AllocFromCompleteKeeps(objectSize: nat, order: nat, objects: nat, outstanding: set<nat>,
                               rc0: RefcntMap, rc: RefcntMap, fs: seq<nat>, ps: seq<nat>, xs: seq<nat>,
                               fs': seq<nat>, ps': seq<nat>, xs': seq<nat>, live: seq<nat>, live': seq<nat>,
                               base: nat, addr: nat)
    requires objectSize > 0 && HeaderSize + objectSize * objects <= SlabBytes(order) && objects >= 1
    requires Counted(rc0, fs, ps, xs, live, outstanding, objectSize, order, objects)
    requires fs != [] && fs[0] == base && Distinct(fs) && Disjoint(fs, ps) && Disjoint(fs, xs)
    requires Adjusted(rc0, rc, base, 1)
    requires addr == SlotAddress(base, objectSize, 0) && live' == live + [addr]
    requires fs' == fs[1..]
    requires if rc0[base] + 1 == objects then ps' == ps && xs' == [base] + xs
             else ps' == [base] + ps && xs' == xs
    ensures rc0[base] == 0
    ensures CalculateSlabStart(addr, order) == base && addr + objectSize <= base + SlabBytes(order)
    ensures Counted(rc, fs', ps', xs', live', outstanding, objectSize, order, objects)
  {
    DisjointMembers(fs, ps);
    DisjointMembers(fs, xs);
    DistinctTail(fs);
    ElementsOfTail(fs);
    ElementsOfPush(base, xs);
    ElementsOfPush(base, ps);
    SlotMasksToSlab(base, objectSize, objects, order, 0);
    SlotOfSlab(base, objectSize, order, objects, 0);
    AccountAlloc(rc0, rc, live, addr, base, objectSize, order, objects);
  }

  /**
   The third branch of cache_alloc keeps the invariant: a fresh aligned
   block of the page source becomes a slab with one live object, in front of
   empty_slab when one object fills it, else in front of partially_slab.
   */
  lemma AllocFromFreshSlabKeeps(objectSize: nat, order: nat, objects: nat, outstanding: set<nat>,
                                rc0: RefcntMap, rc: RefcntMap, fs: seq<nat>, ps: seq<nat>, xs: seq<nat>,
                                ps': seq<nat>, xs': seq<nat>, live: seq<nat>, base: nat, addr: nat)
    requires objectSize > 0 && HeaderSize + objectSize * objects <= SlabBytes(order) && objects >= 1
    requires Counted(rc0, fs, ps, xs, live, outstanding, objectSize, order, objects)
    requires base !in outstanding && base % SlabBytes(order) == 0
    requires rc == rc0[base := 1]
    requires addr == SlotAddress(base, objectSize, 0)
    requires if objects == 1 then ps' == ps && xs' == [base] + xs
             else ps' == [base] + ps && xs' == xs
    ensures base !in rc0 && base !in fs && base !in ps && base !in xs
    ensures CalculateSlabStart(addr, order) == base && addr + objectSize <= base + SlabBytes(order)
    ensures Counted(rc, fs, ps', xs', live + [addr], outstanding + {base}, objectSize, order, objects)
  {
    ElementsOfPush(base, xs);
    ElementsOfPush(base, ps);
    SlotMasksToSlab(base, objectSize, objects, order, 0);
    SlotOfSlab(base, objectSize, order, objects, 0);
    LiveInAbsent(live, base, order);
    AccountAlloc(rc0, rc, live, addr, base, objectSize, order, objects);
  }

  /** The position of the first occurrence of x in s. */
  function IndexOf(s: seq<nat>, x: nat): (i: nat)
    requires x in s
    ensures i < |s| && s[i] == x
    ensures forall j :: 0 <= j < i ==> s[j] != x
  {
    if s[0] == x then 0 else 1 + IndexOf(s[1..], x)
  }

  /** s with its first occurrence of x taken out: the live addresses after cache_free of x. */
  function RemoveFirst(s: seq<nat>, x: nat): (r: seq<nat>)
    requires x in s
    ensures |r| == |s| - 1
    ensures multiset(r) == multiset(s) - multiset{x}
  {
    var i := IndexOf(s, x);
    assert s == s[..i] + [s[i]] + s[i + 1..];
    s[..i] + s[i + 1..]
  }

  /**
   The slab a live address masks to is owned, has a positive refcnt and so
   is on partially_slab or empty_slab, never on complete_slab.
   */
  lemma FreeTarget(rc: RefcntMap, fs: seq<nat>, ps: seq<nat>, xs: seq<nat>, live: seq<nat>,
                   outstanding: set<nat>, objectSize: nat, order: nat, objects: nat, ptr: nat)
    requires Counted(rc, fs, ps, xs, live, outstanding, objectSize, order, objects)
    requires ptr in live
    ensures var slab := CalculateSlabStart(ptr, order);
      slab in rc && rc[slab] >= 1 && slab !in fs && (slab in ps || slab in xs)
  {
    LiveInPositive(live, ptr, order);
  }

  /**
   After a free from the slab at base, whose refcnt went down by one with
   the address taken out of the live ones, every refcnt counts the live
   addresses that are left.
   */
  lemma AccountFree(rc0: RefcntMap, rc: RefcntMap, live: seq<nat>, live': seq<nat>, ptr: nat, slab: nat,
                    objectSize: nat, order: nat, objects: nat)
    requires Accounted(rc0, live, objectSize, order, objects)
    requires ptr in live && slab == CalculateSlabStart(ptr, order)
    requires Adjusted(rc0, rc, slab, -1)
    requires live' == RemoveFirst(live, ptr)
    ensures Accounted(rc, live', objectSize, order, objects)
  {
    var i := IndexOf(live, ptr);
    assert live == live[..i] + [live[i]] + live[i + 1..];
    assert forall a :: a in live' ==> a in live;
    forall b | b in rc ensures rc[b] == LiveIn(live', b, order) {
      LiveInRemove(live, i, b, order);
    }
  }

  /**
   The lists after a free: a slab whose last object went is on
   complete_slab alone, any other slab stays on its list with a positive
   refcnt no larger than before.
   */
  lemma FreeRelists(rc0: RefcntMap, rc: RefcntMap, fs: seq<nat>, ps: seq<nat>, xs: seq<nat>,
                    fs': seq<nat>, ps': seq<nat>, xs': seq<nat>, slab: nat, order: nat, outstanding: set<nat>, objects: nat)
    requires Listed(rc0, fs, ps, xs) && RefcntsMatch(rc0, fs, ps, xs, objects) && Owned(rc0, order, outstanding)
    requires slab !in fs && (slab in ps || slab in xs)
    requires Adjusted(rc0, rc, slab, -1)
    requires if rc0[slab] == 1 then fs' == [slab] + fs && ps' == Without(ps, slab) && xs' == Without(xs, slab)
             else fs' == fs && ps' == ps && xs' == xs
    ensures Listed(rc, fs', ps', xs') && RefcntsMatch(rc, fs', ps', xs', objects) && Owned(rc, order, outstanding)
  {
    assert rc.Keys == rc0.Keys;
    if rc0[slab] == 1 {
      ElementsOfPush(slab, fs);
      ElementsOfWithout(ps, slab);
      ElementsOfWithout(xs, slab);
    }
  }

  /**
   cache_free keeps the invariant: the slab of the freed address loses one
   live object and, when none is left, moves from partially_slab or
   empty_slab to the front of complete_slab; otherwise it stays where it is.
   */
  lemma FreeKeeps(objectSize: nat, order: nat, objects: nat, outstanding: set<nat>,
                  rc0: RefcntMap, rc: RefcntMap, fs: seq<nat>, ps: seq<nat>, xs: seq<nat>,
                  fs': seq<nat>, ps': seq<nat>, xs': seq<nat>, live: seq<nat>, live': seq<nat>,
                  ptr: nat, slab: nat)
    requires Counted(rc0, fs, ps, xs, live, outstanding, objectSize, order, objects)
    requires ptr in live && slab == CalculateSlabStart(ptr, order)
    requires Adjusted(rc0, rc, slab, -1)
    requires live' == RemoveFirst(live, ptr)
    requires if rc0[slab] == 1 then fs' == [slab] + fs && ps' == Without(ps, slab) && xs' == Without(xs, slab)
             else fs' == fs && ps' == ps && xs' == xs
    ensures Counted(rc, fs', ps', xs', live', outstanding, objectSize, order, objects)
  {
    FreeTarget(rc0, fs, ps, xs, live, outstanding, objectSize, order, objects, ptr);
    FreeRelists(rc0, rc, fs, ps, xs, fs', ps', xs', slab, order, outstanding, objects);
    AccountFree(rc0, rc, live, live', ptr, slab, objectSize, order, objects);
  }

  /** Under the invariant the slabs of complete_slab are exactly those with no live object. */
  lemma EmptyExactlyFree(rc: RefcntMap, fs: seq<nat>, ps: seq<nat>, xs: seq<nat>, objects: nat)
    requires Listed(rc, fs, ps, xs) && RefcntsMatch(rc, fs, ps, xs, objects)
    ensures forall b :: b in rc ==> (b in fs <==> rc[b] == 0)
  {
  }

  /** Every slab on a list is a block held from the page source. */
  lemma ListedOwned(rc: RefcntMap, fs: seq<nat>, ps: seq<nat>, xs: seq<nat>, order: nat, outstanding: set<nat>)
    requires Listed(rc, fs, ps, xs) && Owned(rc, order, outstanding)
    ensures forall b :: b in fs || b in ps || b in xs ==> b in outstanding
  {
    assert forall b :: b in fs || b in ps || b in xs ==> b in rc;
  }

  /**
   cache_shrink keeps the invariant: the slabs of complete_slab go back to
   the page source, which are exactly the slabs with no live object; the
   cache keeps the other two lists as they are.
   */
  lemma ShrinkKeeps(objectSize: nat, order: nat, objects: nat, outstanding: set<nat>, outstanding': set<nat>,
                    rc0: RefcntMap, rc: RefcntMap, fs: seq<nat>, ps: seq<nat>, xs: seq<nat>, live: seq<nat>)
    requires Counted(rc0, fs, ps, xs, live, outstanding, objectSize, order, objects)
    requires Dropped(rc0, rc, Elements(fs)) && outstanding' == outstanding - Elements(fs)
    ensures forall b :: b in rc0 ==> (b in rc <==> rc0[b] != 0)
    ensures Counted(rc, [], ps, xs, live, outstanding', objectSize, order, objects)
  {
    EmptyExactlyFree(rc0, fs, ps, xs, objects);
    forall a | a in live ensures CalculateSlabStart(a, order) in rc {
      LiveInPositive(live, a, order);
    }
  }

  /**
   cache_release leaves nothing to account for: once every slab of the three
   lists is gone the cache owns no slab and no address is live.
   */
  lemma ReleaseKeeps(objectSize: nat, order: nat, objects: nat, outstanding: set<nat>, outstanding': set<nat>,
                     rc0: RefcntMap, rc: RefcntMap, fs: seq<nat>, ps: seq<nat>, xs: seq<nat>, live: seq<nat>)
    requires Counted(rc0, fs, ps, xs, live, outstanding, objectSize, order, objects)
    requires Dropped(rc0, rc, Elements(fs) + Elements(ps) + Elements(xs))
    requires outstanding' == outstanding - (Elements(fs) + Elements(ps) + Elements(xs))
    ensures rc == map[] && rc0.Keys == Elements(fs) + Elements(ps) + Elements(xs)
    ensures Counted(rc, [], [], [], [], outstanding', objectSize, order, objects)
  {
    assert rc.Keys == {};
  }
}
