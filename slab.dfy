/// One slab: a 4-page region carved into equal objects of 2^objShift bytes,
/// with an intrusive free list whose links live in the first u16 of each free
/// object. The first u16 of every slot is modelled by the sequence `links`; the
/// rest of each object's bytes are not modelled.
module Slabs {
  import opened Common

  const PAGE_SIZE: nat := 4096
  const SLAB_FRAME_ALLOC_ORDER: nat := 2
  /// PAGE_SIZE << SLAB_FRAME_ALLOC_ORDER, that is 2^14.
  const SLAB_SIZE_BYTES: nat := 16384
  const SLAB_SIZE_LOG2: nat := 14
  /// ilog2(SLAB_SIZE_BYTES) - 1
  const SLAB_MAX_OBJ_SHIFT: nat := 13
  /// The u16::MAX sentinel that ends the free list.
  const LINK_END: nat := 0xFFFF

  datatype SlabState = Free | Partial | Full

  /// `SLAB_SIZE_BYTES >> objShift` objects fit in a slab: at least two and,
  /// since objects hold a u16 link, at most 8192.
  function Capacity(objShift: nat): (n: nat)
    ensures 1 <= objShift <= SLAB_SIZE_LOG2 ==> n <= 8192
    ensures objShift <= SLAB_MAX_OBJ_SHIFT ==> n >= 2
  {
    if objShift <= SLAB_SIZE_LOG2 then
      CapacityFacts(objShift);
      Pow2(SLAB_SIZE_LOG2 - objShift)
    else 0
  }

  /// The objects of a slab fill its region exactly.
  lemma CapacityFillsSlab(objShift: nat)
    requires objShift <= SLAB_SIZE_LOG2
    ensures Capacity(objShift) * Pow2(objShift) == SLAB_SIZE_BYTES
  {
    CapacityFacts(objShift);
  }

  lemma CapacityFacts(objShift: nat)
    requires objShift <= SLAB_SIZE_LOG2
    ensures Pow2(SLAB_SIZE_LOG2 - objShift) * Pow2(objShift) == SLAB_SIZE_BYTES
    ensures objShift >= 1 ==> Pow2(SLAB_SIZE_LOG2 - objShift) <= 8192
    ensures objShift <= SLAB_MAX_OBJ_SHIFT ==> Pow2(SLAB_SIZE_LOG2 - objShift) >= 2
  {
    Pow2Add(SLAB_SIZE_LOG2 - objShift, objShift);
    assert Pow2(14) == 16384;
    if objShift >= 1 {
      Pow2Mono(SLAB_SIZE_LOG2 - objShift, 13);
      assert Pow2(13) == 8192;
    }
    if objShift <= SLAB_MAX_OBJ_SHIFT {
      Pow2Mono(1, SLAB_SIZE_LOG2 - objShift);
    }
  }

  lemma {:induction false} Pow2Mono(a: nat, b: nat)
    requires a <= b
    ensures Pow2(a) <= Pow2(b)
    decreases b
  {
    if a < b { Pow2Mono(a, b - 1); }
  }

  predicate Distinct(s: seq<nat>)
  {
    forall i, j :: 0 <= i < j < |s| ==> s[i] != s[j]
  }

  /// The slots 0, 1, ..., n - 1 in order: the free list of a fresh slab.
  function Range(n: nat): (r: seq<nat>)
    ensures |r| == n && forall i :: 0 <= i < n ==> r[i] == i
  {
    seq(n, i => i)
  }

  /// Slots below `n` that are not on the free list `fl`.
  ghost function SlotsNotIn(n: nat, fl: seq<nat>): set<nat>
  {
    set i: nat | i < n && i !in fl
  }

  lemma {:induction false} CardBelow(n: nat)
    ensures |SlotsNotIn(n, [])| == n
    decreases n
  {
    if n > 0 {
      CardBelow(n - 1);
      assert SlotsNotIn(n, []) == SlotsNotIn(n - 1, []) + {n - 1};
    }
  }

  /// With a duplicate-free free list of in-range slots, exactly
  /// `n - |fl|` slots are allocated.
  lemma {:induction false} AllocatedCount(n: nat, fl: seq<nat>)
    requires Distinct(fl) && forall k :: 0 <= k < |fl| ==> fl[k] < n
    ensures |SlotsNotIn(n, fl)| == n - |fl| && |fl| <= n
    decreases |fl|
  {
    if |fl| == 0 {
      CardBelow(n);
    } else {
      AllocatedCount(n, fl[1..]);
      assert fl[0] !in fl[1..];
      assert SlotsNotIn(n, fl) == SlotsNotIn(n, fl[1..]) - {fl[0]};
      assert fl[0] in SlotsNotIn(n, fl[1..]);
    }
  }

  /// `fl` is the chain that starts at `fl[0]` and follows `links` to the
  /// LINK_END sentinel: each slot's link names the next slot on the list, and
  /// no slot appears twice.
  predicate Linked(links: seq<nat>, fl: seq<nat>)
    decreases |fl|
  {
    if fl == [] then true
    else
      && fl[0] < |links|
      && fl[0] !in fl[1..]
      && links[fl[0]] == (if |fl| == 1 then LINK_END else fl[1])
      && Linked(links, fl[1..])
  }

  lemma {:induction false} LinkedDistinct(links: seq<nat>, fl: seq<nat>)
    requires Linked(links, fl)
    ensures Distinct(fl)
    decreases |fl|
  {
    if fl != [] {
      LinkedDistinct(links, fl[1..]);
      forall i, j | 0 <= i < j < |fl| ensures fl[i] != fl[j] {
        if i > 0 {
          assert fl[i] == fl[1..][i - 1] && fl[j] == fl[1..][j - 1];
        } else {
          assert fl[j] == fl[1..][j - 1];
        }
      }
    }
  }

  lemma {:induction false} LinkedInRange(links: seq<nat>, fl: seq<nat>)
    requires Linked(links, fl)
    ensures forall k :: 0 <= k < |fl| ==> fl[k] < |links|
    decreases |fl|
  {
    if fl != [] {
      LinkedInRange(links, fl[1..]);
      assert forall k :: 1 <= k < |fl| ==> fl[k] == fl[1..][k - 1];
    }
  }

  /// Writing the link of a slot that is not on the chain leaves the chain intact.
  lemma {:induction false} LinkedUpdate(links: seq<nat>, fl: seq<nat>, i: nat, v: nat)
    requires Linked(links, fl) && i < |links| && i !in fl
    ensures Linked(links[i := v], fl)
    decreases |fl|
  {
    if fl != [] {
      LinkedUpdate(links, fl[1..], i, v);
    }
  }

  /// A fresh slab's links, slot k pointing at k + 1, chain every slot from
  /// `i` to the last one.
  lemma {:induction false} LinkedFresh(links: seq<nat>, i: nat)
    requires i <= |links|
    requires forall k :: 0 <= k < |links| ==> links[k] == if k == |links| - 1 then LINK_END else k + 1
    ensures Linked(links, Range(|links|)[i..])
    decreases |links| - i
  {
    if i < |links| {
      LinkedFresh(links, i + 1);
      assert Range(|links|)[i..][1..] == Range(|links|)[i + 1..];
    }
  }

  /// `idx` objects of `d` bytes, laid end to end.
  function SlotOffset(idx: nat, d: nat): nat
  {
    if idx == 0 then 0 else SlotOffset(idx - 1, d) + d
  }

  lemma {:induction false} SlotOffsetProduct(idx: nat, d: nat)
    ensures SlotOffset(idx, d) == idx * d
  {
    if idx > 0 {
      SlotOffsetProduct(idx - 1, d);
    }
  }

  lemma MulDivExact(i: nat, d: nat)
    requires d >= 1
    ensures (i * d) % d == 0 && (i * d) / d == i
  {
    var q, r := (i * d) / d, (i * d) % d;
    assert i * d == q * d + r && 0 <= r < d;
  }

  class Slab {
    const objShift: nat
    const base: nat
    var numFree: nat
    var nextFree: Option<nat>
    /// The first u16 of each object slot, where free objects keep their link.
    var links: seq<nat>
    /// The slots on the free list, from `nextFree` onwards.
    ghost var FreeList: seq<nat>

    ghost predicate Valid()
      reads this
    {
      && 1 <= objShift <= SLAB_MAX_OBJ_SHIFT
      && |links| == Capacity(objShift)
      && numFree == |FreeList|
      && nextFree == (if |FreeList| == 0 then None else Some(FreeList[0]))
      && Linked(links, FreeList)
    }

    function ObjSize(): (d: nat)
      reads this
      ensures d >= 1
    {
      Pow2(objShift)
    }

    function Cap(): nat
      reads this
    {
      Capacity(objShift)
    }

    /// The address of slot `idx`, `idx` objects past the base.
    function SlotAddr(idx: nat): nat
      reads this
    {
      base + SlotOffset(idx, ObjSize())
    }

    /// A pointer at a whole number of objects past the base is the address of
    /// the slot that the free path computes for it.
    lemma SlotOfAddr(ptr: nat)
      requires base <= ptr && (ptr - base) % ObjSize() == 0
      ensures SlotAddr((ptr - base) / ObjSize()) == ptr
    {
      var d := ObjSize();
      SlotOffsetProduct((ptr - base) / d, d);
      assert ptr - base == d * ((ptr - base) / d) + (ptr - base) % d;
    }

    /// The free path maps the address of slot `idx` back to `idx`.
    lemma AddrOfSlot(idx: nat)
      ensures SlotAddr(idx) >= base
      ensures (SlotAddr(idx) - base) % ObjSize() == 0 && (SlotAddr(idx) - base) / ObjSize() == idx
    {
      var d := ObjSize();
      SlotOffsetProduct(idx, d);
      MulDivExact(idx, d);
    }

    /// Slots currently handed out.
    ghost function Allocated(): set<nat>
      reads this
    {
      SlotsNotIn(Cap(), FreeList)
    }

    /// The new slab's free list links slot i to i + 1 and ends at the last
    /// slot with the sentinel; every object is free.
    constructor (regionSize: nat, regionBase: nat, shift: nat)
      requires regionSize == SLAB_SIZE_BYTES
      requires 1 <= shift <= SLAB_MAX_OBJ_SHIFT
      ensures Valid()
      ensures objShift == shift && base == regionBase
      ensures numFree == Capacity(shift) && nextFree == Some(0)
      ensures FreeList == Range(Capacity(shift))
      ensures forall i :: 0 <= i < |links| ==>
                links[i] == if i == |links| - 1 then LINK_END else i + 1
    {
      objShift := shift;
      base := regionBase;
      var n := Capacity(shift);
      var a := new nat[n];
      for i := 0 to n
        invariant forall k :: 0 <= k < i ==> a[k] == if k == n - 1 then LINK_END else k + 1
      {
        a[i] := if i == n - 1 then LINK_END else i + 1;
      }
      links := a[..];
      numFree := n;
      nextFree := Some(0);
      FreeList := Range(n);
      LinkedFresh(a[..], 0);
      assert Range(n)[0..] == Range(n);
    }

    /// Fewer than `Cap()` objects are ever free, and exactly `Cap() - numFree`
    /// are allocated.
    lemma AllocatedSize()
      requires Valid()
      ensures numFree <= Cap() && |Allocated()| == Cap() - numFree
    {
      LinkedInRange(links, FreeList);
      LinkedDistinct(links, FreeList);
      AllocatedCount(Cap(), FreeList);
    }

    /// `None` exactly when the slab is full. Otherwise the head of the free list
    /// is handed out and the list advances along its link.
    method AllocObject() returns (p: Option<nat>)
      requires Valid()
      modifies this`numFree, this`nextFree, this`FreeList
      ensures Valid()
      ensures p.None? <==> old(numFree) == 0
      ensures p.None? ==> FreeList == old(FreeList)
      ensures p.Some? ==> (p.value == SlotAddr(old(FreeList)[0])
                           && FreeList == old(FreeList)[1..] && numFree == old(numFree) - 1)
    {
      if numFree == 0 {
        return None;
      }
      LinkedInRange(links, FreeList);
      var idx := nextFree.value;
      var next := links[idx];
      nextFree := if next == LINK_END then None else Some(next);
      numFree := numFree - 1;
      FreeList := FreeList[1..];
      p := Some(SlotAddr(idx));
    }

    /// Pushes the object's slot on the head of the free list (so the next
    /// allocation returns it). The pointer must lie in the slab; it must be one
    /// handed out by `AllocObject` and not yet returned.
    method PutObject(ptr: nat)
      requires Valid()
      requires base <= ptr < base + SLAB_SIZE_BYTES
      requires (ptr - base) % ObjSize() == 0 && (ptr - base) / ObjSize() in Allocated()
      modifies this`numFree, this`nextFree, this`FreeList, this`links
      ensures Valid()
      ensures FreeList == [(ptr - base) / ObjSize()] + old(FreeList)
      ensures numFree == old(numFree) + 1 && SlotAddr(FreeList[0]) == ptr
    {
      var idx := (ptr - base) / ObjSize();
      SlotOfAddr(ptr);
      var link: nat := if nextFree.None? then LINK_END else nextFree.value;
      LinkedUpdate(links, FreeList, idx, link);
      links := links[idx := link];
      numFree := numFree + 1;
      nextFree := Some(idx);
      assert ([idx] + FreeList)[1..] == FreeList;
      FreeList := [idx] + FreeList;
      assert forall k :: 1 <= k < |FreeList| ==> FreeList[k] != idx;
    }

    /// Full with nothing free, Free with everything free, Partial otherwise.
    function State(): (st: SlabState)
      reads this
      ensures st == Full <==> numFree == 0
      ensures st == Free <==> numFree != 0 && numFree == Cap()
      ensures st == Partial <==> 0 < numFree && numFree != Cap()
    {
      if numFree == 0 then Full
      else if numFree == Cap() then Free
      else Partial
    }
  }

  /// Two allocations from a fresh slab are one object size apart.
  method ConsecutiveAllocations(regionBase: nat, shift: nat) returns (p1: nat, p2: nat)
    requires 1 <= shift <= SLAB_MAX_OBJ_SHIFT
    ensures p1 == regionBase && p2 == p1 + Pow2(shift)
  {
    var s := new Slab(SLAB_SIZE_BYTES, regionBase, shift);
    var a := s.AllocObject();
    var b := s.AllocObject();
    p1, p2 := a.value, b.value;
  }

  /// Freeing an object and allocating again returns the same object (LIFO).
  method PutThenAlloc(s: Slab, ptr: nat) returns (again: Option<nat>)
    requires s.Valid()
    requires s.base <= ptr < s.base + SLAB_SIZE_BYTES
    requires (ptr - s.base) % s.ObjSize() == 0 && (ptr - s.base) / s.ObjSize() in s.Allocated()
    modifies s
    ensures again == Some(ptr)
  {
    s.PutObject(ptr);
    again := s.AllocObject();
  }

  /// Freeing every allocated object, in any order, makes the slab Free again.
  method FreeAll(s: Slab, ptrs: seq<nat>)
    requires s.Valid()
    requires |ptrs| == s.Cap() - s.numFree
    requires forall i :: 0 <= i < |ptrs| ==> (s.base <= ptrs[i] < s.base + SLAB_SIZE_BYTES
                                              && (ptrs[i] - s.base) % s.ObjSize() == 0
                                              && (ptrs[i] - s.base) / s.ObjSize() in s.Allocated())
    requires forall i, j :: 0 <= i < j < |ptrs| ==> ptrs[i] != ptrs[j]
    modifies s
    ensures s.Valid() && s.State() == Free && s.numFree == s.Cap()
  {
    for i := 0 to |ptrs|
      invariant s.Valid()
      invariant s.numFree == old(s.numFree) + i
      invariant forall j :: i <= j < |ptrs| ==> (ptrs[j] - s.base) / s.ObjSize() in s.Allocated()
    {
      s.SlotOfAddr(ptrs[i]);
      s.PutObject(ptrs[i]);
      forall j | i < j < |ptrs| ensures (ptrs[j] - s.base) / s.ObjSize() in s.Allocated() {
        s.SlotOfAddr(ptrs[j]);
      }
    }
  }
}
