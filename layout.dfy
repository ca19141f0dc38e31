/**
 Slab geometry of the cache: page and header sizes, the slab order and
 per-slab capacity chosen at setup, the address of an object slot, and the
 alignment mask that recovers a slab's base from an address inside it.
 Addresses are unbounded naturals; the mask `addr & ~(2^k - 1)` is written
 as `addr - addr % 2^k`.
 */
module Layout {

  /** Bytes in one page of the page source. */
  const PageSize: nat := 4096

  /** sizeof(slabStruct) on LP64: two pointers and a uint32_t, padded to 8 bytes. */
  const HeaderSize: nat := 24

  /** Largest order the page source accepts. */
  const MaxOrder: nat := 10

  function Pow2(k: nat): (r: nat)
    ensures r >= 1
  {
    if k == 0 then 1 else 2 * Pow2(k - 1)
  }

  lemma {:induction false} Pow2Monotone(j: nat, k: nat)
    requires j <= k
    ensures Pow2(j) <= Pow2(k)
  {
    if j < k {
      Pow2Monotone(j, k - 1);
    }
  }

  lemma {:induction false} Pow2Shift(k: nat)
    ensures Pow2(k + 12) == PageSize * Pow2(k)
  {
    if k == 0 {
      assert Pow2(12) == 4096;
    } else {
      Pow2Shift(k - 1);
      assert Pow2(k + 12) == 2 * Pow2(k - 1 + 12);
    }
  }

  /** Bytes in a block of the given order: 4096 * (1 << order). */
  function SlabBytes(order: nat): (r: nat)
    ensures r >= PageSize
  {
    PageSize * Pow2(order)
  }

  /** A positive multiple of s is at least s. */
  lemma {:induction false} MulAtLeast(k: int, s: nat)
    requires k >= 1
    ensures k * s >= s
  {
    if k > 1 {
      MulAtLeast(k - 1, s);
      assert k * s == (k - 1) * s + s;
    }
  }

  /** Quotient and remainder are unique. */
  lemma DivModUnique(a: nat, s: nat, q: nat, r: nat)
    requires s > 0 && r < s && a == q * s + r
    ensures a / s == q && a % s == r
  {
    var q', r' := a / s, a % s;
    assert a == q' * s + r';
    if q > q' {
      MulAtLeast(q - q', s);
    } else if q' > q {
      MulAtLeast(q' - q, s);
    }
  }

  /** The number of binary digits of n: 0 for 0, else the p with 2^(p-1) <= n < 2^p. */
  function BitLength(n: nat): (p: nat)
    ensures n == 0 <==> p == 0
    ensures n > 0 ==> Pow2(p - 1) <= n < Pow2(p)
  {
    if n == 0 then 0 else 1 + BitLength(n / 2)
  }

  /** smallest_power_of_two: shift n right until it is zero, counting the shifts. */
  method SmallestPowerOfTwo(n: nat) returns (pow: nat)
    ensures pow == BitLength(n)
    ensures n > 0 ==> Pow2(pow - 1) <= n < Pow2(pow)
  {
    var m := n;
    pow := 0;
    while m > 0
      invariant pow + BitLength(m) == BitLength(n)
    {
      m := m / 2;
      pow := pow + 1;
    }
  }

  /** The slab order cache_setup derives from the object size. */
  function SlabOrderFor(objectSize: nat): (order: nat)
    ensures order == 0 <==> HeaderSize + objectSize < PageSize
  {
    BitLength((HeaderSize + objectSize) / PageSize)
  }

  /** The per-slab object count cache_setup derives from the object size. */
  function SlabObjectsFor(objectSize: nat): (objects: nat)
    requires objectSize > 0
    ensures 1 <= objects <= PageSize - HeaderSize
    ensures SlabOrderFor(objectSize) > 0 ==> objects == 1
  {
    if SlabOrderFor(objectSize) > 0 then 1 else (PageSize - HeaderSize) / objectSize
  }

  /** A slab of the derived order holds its header and one object, with room to spare. */
  lemma SlabHoldsHeaderAndObject(objectSize: nat)
    ensures HeaderSize + objectSize < SlabBytes(SlabOrderFor(objectSize))
  {
    var q := (HeaderSize + objectSize) / PageSize;
    var p := BitLength(q);
    assert q + 1 <= Pow2(p);
    assert HeaderSize + objectSize < PageSize * (q + 1);
  }

  /**
   The derived order is the least order whose slab is strictly larger than
   header plus object: every smaller order leaves no such room.
   */
  lemma SlabOrderIsLeast(objectSize: nat, order: nat)
    requires order < SlabOrderFor(objectSize)
    ensures SlabBytes(order) <= HeaderSize + objectSize
  {
    var q := (HeaderSize + objectSize) / PageSize;
    var p := BitLength(q);
    Pow2Monotone(order, p - 1);
    assert Pow2(order) <= q;
    assert PageSize * Pow2(order) <= PageSize * q;
  }

  /** The derived capacity is at least one and all its slots fit behind the header. */
  lemma SlabHoldsCapacity(objectSize: nat)
    requires objectSize > 0
    ensures SlabObjectsFor(objectSize) >= 1
    ensures HeaderSize + objectSize * SlabObjectsFor(objectSize) <= SlabBytes(SlabOrderFor(objectSize))
  {
    SlabHoldsHeaderAndObject(objectSize);
    if SlabOrderFor(objectSize) == 0 {
      var room := PageSize - HeaderSize;
      var k := room / objectSize;
      assert objectSize < room;
      assert room == k * objectSize + room % objectSize;
      assert k >= 1;
      assert objectSize * k <= room;
    }
  }

  /** The order is within the page source's range exactly when header plus object is under 4 MiB. */
  lemma SlabOrderInRange(objectSize: nat)
    ensures SlabOrderFor(objectSize) <= MaxOrder <==> HeaderSize + objectSize < SlabBytes(MaxOrder)
  {
    var q := (HeaderSize + objectSize) / PageSize;
    var p := BitLength(q);
    assert Pow2(10) == 1024;
    if p <= MaxOrder {
      Pow2Monotone(p, MaxOrder);
      SlabHoldsHeaderAndObject(objectSize);
      assert SlabBytes(p) <= SlabBytes(MaxOrder);
    } else {
      Pow2Monotone(MaxOrder, p - 1);
      assert 1024 <= q;
    }
  }

  /** Address of slot k of the slab at base: base + sizeof(slabStruct) + object_size * k. */
  function SlotAddress(base: nat, objectSize: nat, k: nat): (addr: nat)
    ensures base + HeaderSize <= addr
    ensures objectSize > 0 ==> (addr - base - HeaderSize) / objectSize == k && (addr - base - HeaderSize) % objectSize == 0
  {
    assert objectSize > 0 ==> (objectSize * k) / objectSize == k && (objectSize * k) % objectSize == 0 by {
      if objectSize > 0 {
        DivModUnique(objectSize * k, objectSize, k, 0);
      }
    }
    base + HeaderSize + objectSize * k
  }

  /** Every slot below the capacity lies wholly inside its slab, after the header. */
  lemma SlotWithinSlab(objectSize: nat, objects: nat, order: nat, k: nat)
    requires k < objects
    requires HeaderSize + objectSize * objects <= SlabBytes(order)
    ensures 0 <= objectSize * k && HeaderSize + objectSize * k + objectSize <= SlabBytes(order)
  {
    var rest := objects - (k + 1);
    assert objectSize * objects == objectSize * (k + 1) + objectSize * rest;
    assert objectSize * (k + 1) == objectSize * k + objectSize;
  }

  /** calculate_slab_start: clear the low slab_order + 12 bits of the address. */
  function CalculateSlabStart(addr: nat, order: nat): (base: nat)
    ensures base <= addr < base + SlabBytes(order)
    ensures base % SlabBytes(order) == 0
  {
    var width := Pow2(order + 12);
    MaskIsSlabStart(addr, order, width);
    addr - addr % width
  }

  lemma MaskIsSlabStart(addr: nat, order: nat, width: nat)
    requires width == Pow2(order + 12)
    ensures width == SlabBytes(order) && addr % width <= addr
    ensures (addr - addr % width) % width == 0
    ensures addr < addr - addr % width + width
  {
    Pow2Shift(order);
    assert width == SlabBytes(order);
    MaskAligned(addr, width);
  }

  /** Clearing the remainder modulo s leaves a multiple of s within s below the address. */
  lemma MaskAligned(a: nat, s: nat)
    requires s > 0
    ensures a % s <= a && (a - a % s) % s == 0
    ensures a < a - a % s + s
  {
    var q := a / s;
    assert a == q * s + a % s;
    DivModUnique(a - a % s, s, q, 0);
  }

  /** Two multiples of s that are less than s apart are equal. */
  lemma AlignedClose(x: nat, y: nat, s: nat)
    requires s > 0 && x % s == 0 && y % s == 0
    requires x <= y < x + s
    ensures x == y
  {
    assert x == (x / s) * s;
    DivModUnique(y, s, x / s, y - x);
  }

  /** Masking any address inside an aligned slab yields that slab's base. */
  lemma MaskRecoversBase(addr: nat, base: nat, order: nat)
    requires base % SlabBytes(order) == 0
    requires base <= addr < base + SlabBytes(order)
    ensures CalculateSlabStart(addr, order) == base
  {
    var r := CalculateSlabStart(addr, order);
    if r <= base {
      AlignedClose(r, base, SlabBytes(order));
    } else {
      AlignedClose(base, r, SlabBytes(order));
    }
  }

  /** The mask maps every slot of a slab back to the slab. */
  lemma SlotMasksToSlab(base: nat, objectSize: nat, objects: nat, order: nat, k: nat)
    requires base % SlabBytes(order) == 0
    requires objectSize > 0 && k < objects
    requires HeaderSize + objectSize * objects <= SlabBytes(order)
    ensures CalculateSlabStart(SlotAddress(base, objectSize, k), order) == base
    ensures SlotAddress(base, objectSize, k) + objectSize <= base + SlabBytes(order)
  {
    SlotWithinSlab(objectSize, objects, order, k);
    MaskRecoversBase(SlotAddress(base, objectSize, k), base, order);
  }
}
