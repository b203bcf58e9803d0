/// Address translation for memory the kernel maps at a fixed linear offset:
/// virtual = physical + PAGE_OFFSET, where PAGE_OFFSET is fixed per
/// architecture.
module PageOffset {
  import opened Common

  /// A 64-bit address.
  type Addr = a: nat | a < U64_LIMIT

  /// `virt_to_phys`: subtracts the offset. The subtraction is on `usize`;
  /// an address below the offset would underflow, so callers pass addresses
  /// of the linear map only.
  function VirtToPhys(va: Addr, pageOffset: Addr): (pa: Addr)
    requires va >= pageOffset
    ensures pa + pageOffset == va
  {
    va - pageOffset
  }

  /// `phys_to_virt`: adds the offset, which must not overflow.
  function PhysToVirt(pa: Addr, pageOffset: Addr): (va: Addr)
    requires pa + pageOffset < U64_LIMIT
    ensures va - pageOffset == pa
  {
    pa + pageOffset
  }

  /// Translating a linear-map address to physical and back returns it.
  lemma VirtPhysVirt(va: Addr, pageOffset: Addr)
    requires va >= pageOffset
    ensures PhysToVirt(VirtToPhys(va, pageOffset), pageOffset) == va
  {
  }

  /// Translating a physical address to virtual and back returns it.
  lemma PhysVirtPhys(pa: Addr, pageOffset: Addr)
    requires pa + pageOffset < U64_LIMIT
    ensures VirtToPhys(PhysToVirt(pa, pageOffset), pageOffset) == pa
  {
  }
}
