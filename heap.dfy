/// The kernel heap's front end: small layouts go through the per-CPU object
/// cache and the slab allocator, layouts too large for any slab go straight
/// to the frame allocator as a block of 2^order pages.
module Heap {
  import opened Common
  import Slabs

  /// A requested allocation: its size and its alignment in bytes.
  datatype Layout = Layout(size: nat, align: nat)

  /// `x / d` rounded up.
  function DivCeil(x: nat, d: nat): (r: nat)
    requires d > 0
    ensures r * d >= x
    ensures r > 0 ==> (r - 1) * d < x
  {
    var q := x / d;
    if x % d == 0 then q else q + 1
  }

  /// The exponent of the smallest power of two that is at least `n`
  /// (`n.next_power_of_two().ilog2()`; the next power of two of 0 is 1).
  function Log2Ceil(n: nat): (k: nat)
    decreases n
  {
    if n <= 1 then 0 else 1 + Log2Ceil((n + 1) / 2)
  }

  /// `Pow2(Log2Ceil(n))` is the next power of two of `n`: it is at least `n`
  /// and halving it falls below `n`.
  lemma {:induction false} Log2CeilIsNextPow2(n: nat)
    ensures Pow2(Log2Ceil(n)) >= n
    ensures Log2Ceil(n) > 0 ==> Pow2(Log2Ceil(n) - 1) < n
    decreases n
  {
    if n > 1 {
      var m := (n + 1) / 2;
      Log2CeilIsNextPow2(m);
    }
  }

  /// The frame-allocator order used for a layout the slab caches do not serve.
  function HugeOrder(l: Layout): (order: nat)
  {
    Log2Ceil(DivCeil(Max(l.size, l.align), Slabs.PAGE_SIZE))
  }

  /// The order covers the layout: 2^order pages hold max(size, align) bytes.
  lemma HugeOrderCovers(l: Layout)
    ensures Slabs.PAGE_SIZE * Pow2(HugeOrder(l)) >= Max(l.size, l.align)
  {
    var pages := DivCeil(Max(l.size, l.align), Slabs.PAGE_SIZE);
    Log2CeilIsNextPow2(pages);
    MulLe(pages, Pow2(HugeOrder(l)), Slabs.PAGE_SIZE);
  }

  /// The order is the smallest that covers: one order less would not.
  lemma HugeOrderMinimal(l: Layout)
    requires HugeOrder(l) > 0
    ensures Slabs.PAGE_SIZE * Pow2(HugeOrder(l) - 1) < Max(l.size, l.align)
  {
    var pages := DivCeil(Max(l.size, l.align), Slabs.PAGE_SIZE);
    Log2CeilIsNextPow2(pages);
    MulLe(Pow2(HugeOrder(l) - 1), pages - 1, Slabs.PAGE_SIZE);
  }

  /// How `alloc` serves a layout.
  datatype AllocRoute =
    | FrameBlock(order: nat)   // straight from the frame allocator
    | CacheHit                 // an object already in the per-CPU cache
    | SlabRefill               // from the slab manager, then refill the cache

  /// How `dealloc` returns a pointer.
  datatype DeallocRoute =
    | FrameRegion(bytes: nat)  // a region handed back to the frame allocator
    | CacheStore               // kept in the per-CPU cache
    | SlabDrain                // freed to the slab manager, then the cache drains

  /// `alloc`: `servedByCache` says whether the cache has a line for the
  /// layout, `cacheHasObject` whether that line's pop succeeded.
  function Alloc(l: Layout, servedByCache: bool, cacheHasObject: bool): (r: AllocRoute)
    ensures r.FrameBlock? <==> !servedByCache
    ensures r.CacheHit? <==> servedByCache && cacheHasObject
  {
    if !servedByCache then FrameBlock(HugeOrder(l))
    else if cacheHasObject then CacheHit
    else SlabRefill
  }

  /// `dealloc`: `cacheAccepts` says whether the cache line had room.
  function Dealloc(l: Layout, servedByCache: bool, cacheAccepts: bool): (r: DeallocRoute)
    ensures r.FrameRegion? <==> !servedByCache
    ensures r.CacheStore? <==> servedByCache && cacheAccepts
  {
    if !servedByCache then FrameRegion(Slabs.PAGE_SIZE * Pow2(HugeOrder(l)))
    else if cacheAccepts then CacheStore
    else SlabDrain
  }

  /// A block taken from the frame allocator for a layout is returned as a
  /// region of exactly 2^order pages, the size that was allocated, and that
  /// region holds the layout.
  lemma AllocDeallocAgree(l: Layout, cacheHasObject: bool, cacheAccepts: bool)
    ensures Alloc(l, false, cacheHasObject).FrameBlock?
    ensures Dealloc(l, false, cacheAccepts)
         == FrameRegion(Slabs.PAGE_SIZE * Pow2(Alloc(l, false, cacheHasObject).order))
    ensures Dealloc(l, false, cacheAccepts).bytes >= Max(l.size, l.align)
  {
    HugeOrderCovers(l);
  }
}
