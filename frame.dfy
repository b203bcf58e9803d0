/// Per-page metadata of the physical frame allocator and the table that maps
/// a page-frame number to its metadata slot.
module Frames {

  /// What a physical page is currently used for.
  datatype FrameState =
    | Uninitialized
    | FreeBlock(order: nat)
    | AllocatedHead(refCount: nat, order: nat)
    | AllocatedTail(head: nat)
    | SlabPage
    | Kernel

  /// Metadata of one physical page; `pfn` is its page-frame number.
  datatype Frame = Frame(state: FrameState, pfn: nat)

  /// `Frame::new`: fresh metadata for page `pfn`.
  function NewFrame(pfn: nat): (f: Frame)
    ensures f.state == Uninitialized && f.pfn == pfn
  {
    Frame(Uninitialized, pfn)
  }

  /// The metadata array of every managed page, starting at `basePage`.
  /// The kernel keeps a raw pointer to the array; here it is the array's contents.
  datatype FrameList = FrameList(frames: seq<Frame>, basePage: nat)
  {
    function BasePage(): (b: nat)
      ensures b == basePage
    {
      basePage
    }

    function TotalPages(): (n: nat)
      ensures n == |frames|
    {
      |frames|
    }

    /// Whether `pfn` lies in the managed range; `pfn_to_index` panics otherwise.
    predicate Manages(pfn: nat)
    {
      basePage <= pfn && pfn - basePage < |frames|
    }

    /// The slot of `pfn`'s metadata; as `basePage + i == pfn`, distinct pages
    /// get distinct slots.
    function PfnToIndex(pfn: nat): (i: nat)
      requires Manages(pfn)
      ensures i < TotalPages()
      ensures basePage + i == pfn
    {
      pfn - basePage
    }

    function GetFrame(pfn: nat): (f: Frame)
      requires Manages(pfn)
      ensures f == frames[PfnToIndex(pfn)]
      ensures Initialized() ==> f.pfn == pfn
    {
      frames[pfn - basePage]
    }

    /// Every slot describes the page it stands for.
    predicate Initialized()
    {
      forall i | 0 <= i < |frames| :: frames[i].pfn == basePage + i
    }
  }

  /// Distinct pages in the managed range have distinct metadata slots.
  lemma DistinctSlots(fl: FrameList, p: nat, q: nat)
    requires fl.Manages(p) && fl.Manages(q) && p != q
    ensures fl.PfnToIndex(p) != fl.PfnToIndex(q)
  {
  }

  /// `FrameList::new` over freshly made metadata for pages base .. base+n-1.
  function NewFrameList(n: nat, basePage: nat): (fl: FrameList)
    ensures fl.BasePage() == basePage && fl.TotalPages() == n
    ensures fl.Initialized()
    ensures forall i | 0 <= i < n :: fl.frames[i].state == Uninitialized
  {
    var frames := seq(n, i requires 0 <= i < n => NewFrame(basePage + i));
    assert forall i | 0 <= i < n :: frames[i] == NewFrame(basePage + i);
    FrameList(frames, basePage)
  }
}
