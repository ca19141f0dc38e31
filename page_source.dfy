/**
 The page source the cache sits on: alloc_slab hands out a block of
 4096 * 2^order bytes aligned to its own size, free_slab takes one back.
 Here it is a stand-in that carves blocks upward from a watermark and keeps
 the set of blocks it has handed out and not taken back, and the log of
 every block released, so that the cache's releases can be stated.
 */
module PageSource {
  import opened Layout

  class Pages {
    /** Every block handed out so far lies below this address. */
    var watermark: nat
    /** Bases of the blocks handed out and not yet released. */
    var outstanding: set<nat>
    /** Bases passed to free_slab, in the order of the calls. */
    var released: seq<nat>

    ghost predicate Valid()
      reads this
    {
      forall b :: b in outstanding ==> b < watermark
    }

    constructor ()
      ensures Valid()
      ensures outstanding == {} && released == []
    {
      watermark := 0;
      outstanding := {};
      released := [];
    }

    /** alloc_slab: a fresh block of the given order, aligned to its size. */
    method AllocSlab(order: nat) returns (base: nat)
      requires Valid()
      requires order <= MaxOrder
      modifies this
      ensures Valid()
      ensures base % SlabBytes(order) == 0
      ensures base !in old(outstanding)
      ensures outstanding == old(outstanding) + {base}
      ensures released == old(released)
    {
      var size := SlabBytes(order);
      var below := (watermark / size) * size;
      assert watermark == below + watermark % size;
      base := below + size;
      assert base == (watermark / size + 1) * size;
      DivModUnique(base, size, watermark / size + 1, 0);
      watermark := base + size;
      outstanding := outstanding + {base};
    }

    /** free_slab: take back a block previously handed out. */
    method FreeSlab(base: nat)
      requires Valid()
      requires base in outstanding
      modifies this
      ensures Valid()
      ensures outstanding == old(outstanding) - {base}
      ensures released == old(released) + [base]
    {
      outstanding := outstanding - {base};
      released := released + [base];
    }
  }
}
