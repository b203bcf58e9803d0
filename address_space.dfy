/// A process's user address space on arm64: an L0 translation table and
/// the operations the memory manager performs on it. Each operation is a
/// region walk with a descriptor modifier, a single-page lookup, a mapping
/// request to the table-building layer, or the teardown.
module Arm64AddressSpace {
  import opened Common
  import opened Permissions
  import opened PageWalk
  import opened PageTearDown
  import ProcVm
  import Slabs

  /// A request to the table-building layer (`map_range`): map the physical
  /// range onto the virtual one with the given permissions.
  datatype MapAttributes = MapAttributes(phys: ProcVm.Region, virt: ProcVm.Region, perms: PtePermissions)

  /// What `map_range` leaves behind: the new tables and the error, if any.
  datatype MapOutcome = MapOutcome(table: Table, error: Option<Error>)

  /// `map_range` itself, which allocates missing tables and writes
  /// descriptors, is not part of this model: the operations that call it
  /// take it as a parameter.
  type MapRange = (Table, MapAttributes) -> MapOutcome

  /// What `translate` reports for a mapped page.
  datatype PageInfo = PageInfo(pfn: nat, perms: PtePermissions)

  /// The page of an address.
  function PageNumber(va: nat): nat
  {
    va / Slabs.PAGE_SIZE
  }

  /// The page-sized region holding `va` (`VA::page_region`).
  function PageRegion(va: nat): ProcVm.Region
  {
    ProcVm.Region(PageNumber(va) * Slabs.PAGE_SIZE, Slabs.PAGE_SIZE)
  }

  /// One page of `frame` mapped at `va`.
  function PageRequest(frame: nat, va: nat, perms: PtePermissions): MapAttributes
  {
    MapAttributes(ProcVm.Region(frame * Slabs.PAGE_SIZE, Slabs.PAGE_SIZE), ProcVm.Region(va, Slabs.PAGE_SIZE), perms)
  }

  /// The page a lookup finds at `va`: its frame and permissions when the
  /// descriptor is valid, nothing otherwise.
  function Lookup(t: Table, va: nat): Option<PageInfo>
    requires WF(t, 0)
  {
    match Find(t, 0, PageNumber(va))
    case Desc(Mapped(frame, perms)) => Some(PageInfo(frame, perms))
    case _ => None
  }

  // ---------------------------------------------------------------------
  // The descriptor modifiers of the walks

  /// Permissions that grant neither read, write nor execute.
  predicate NoAccess(perms: PtePermissions)
  {
    !perms.execute && !perms.read && !perms.write
  }

  /// `mark_as_swapped`: the page stays recorded but is no longer valid.
  function MarkSwapped(d: L3Desc): L3Desc
  {
    match d
    case Mapped(frame, perms) => Swapped(frame, perms)
    case _ => d
  }

  /// `set_permissions` on a valid descriptor.
  function WithPermissions(d: L3Desc, perms: PtePermissions): L3Desc
  {
    match d
    case Mapped(frame, _) => Mapped(frame, perms)
    case _ => d
  }

  /// The modifier of `protect_range`.
  function ProtectModifier(perms: PtePermissions): Modifier
  {
    if NoAccess(perms) then (va: nat, d: L3Desc) => MarkSwapped(d)
    else (va: nat, d: L3Desc) => WithPermissions(d, perms)
  }

  /// The modifier of `unmap_range`: every descriptor becomes invalid.
  function UnmapModifier(): Modifier
  {
    (va: nat, d: L3Desc) => Invalid
  }

  /// The modifier of `remap`: the new page with the new permissions.
  function RemapModifier(page: nat, perms: PtePermissions): Modifier
  {
    (va: nat, d: L3Desc) => Mapped(page, perms)
  }

  /// The modifier of `protect_and_clone_region`: a mapped page gets the new
  /// permissions, anything else is stored back as it was.
  function CloneModifier(perms: PtePermissions): Modifier
  {
    (va: nat, d: L3Desc) => if d.MappedAddress().Some? then WithPermissions(d, perms) else d
  }

  /// The frames of the mapped pages among the visits, in visit order.
  function Frames(vs: seq<Visit>): seq<nat>
  {
    if |vs| == 0 then []
    else
      (match vs[0].desc.MappedAddress() case Some(a) => [a] case None => []) + Frames(vs[1..])
  }

  /// The page-sized mapping requests for the mapped pages among the visits.
  function Requests(vs: seq<Visit>, perms: PtePermissions): seq<MapAttributes>
  {
    if |vs| == 0 then []
    else
      (match vs[0].desc.MappedAddress() case Some(a) => [PageRequest(a, vs[0].va, perms)] case None => []) +
      Requests(vs[1..], perms)
  }

  /// The tables after handing each request to `map_range` in turn.
  function MapEach(t: Table, requests: seq<MapAttributes>, mapRange: MapRange): Table
    decreases |requests|
  {
    if |requests| == 0 then t else MapEach(mapRange(t, requests[0]).table, requests[1..], mapRange)
  }

  /// `map_range` keeps the tables well formed.
  ghost predicate KeepsWF(mapRange: MapRange)
  {
    forall t: Table, a: MapAttributes | WF(t, 0) :: WF(mapRange(t, a).table, 0)
  }

  lemma {:induction false} MapEachWF(t: Table, requests: seq<MapAttributes>, mapRange: MapRange)
    requires WF(t, 0) && KeepsWF(mapRange)
    ensures WF(MapEach(t, requests, mapRange), 0)
    decreases |requests|
  {
    if |requests| > 0 {
      MapEachWF(mapRange(t, requests[0]).table, requests[1..], mapRange);
    }
  }

  // ---------------------------------------------------------------------
  // What each operation does to the tables

  /// What `protect_range` leaves for one page: a mapped page loses its
  /// validity when the new permissions grant nothing, and otherwise takes
  /// them; anything else is left as it was.
  function Protected(found: Found, perms: PtePermissions): Found
  {
    match found
    case Desc(Mapped(frame, was)) =>
      Desc(if NoAccess(perms) then Swapped(frame, was) else Mapped(frame, perms))
    case _ => found
  }

  /// `protect_range` fails on an unaligned region and on a block mapping;
  /// on success every page of the region holds its protected descriptor.
  lemma ProtectRangeEffect(t: Table, region: ProcVm.Region, perms: PtePermissions)
    requires WF(t, 0) && InOneBlock(region)
    ensures var w := RegionWalk(t, region, ProtectModifier(perms));
      var first, count := region.start / Slabs.PAGE_SIZE, region.size / Slabs.PAGE_SIZE;
      && w.error == (if !PageAligned(region) then Some(VirtNotAligned)
                     else if NoBlock(t, 0, first, count) then None else Some(NotL3Mapped))
      && (w.error.None? ==> forall p | first <= p < first + count :: Find(w.table, 0, p) == Protected(Find(t, 0, p), perms))
  {
    RegionWalkEffect(t, region, ProtectModifier(perms));
  }

  /// After a successful `protect_range`, a lookup in the region finds the
  /// new permissions on every page that was mapped, or nothing when they
  /// grant no access; unmapped pages stay unmapped.
  lemma ProtectThenLookup(t: Table, region: ProcVm.Region, perms: PtePermissions, va: nat)
    requires WF(t, 0) && InOneBlock(region) && region.Contains(va)
    requires RegionWalk(t, region, ProtectModifier(perms)).error.None?
    ensures var after := RegionWalk(t, region, ProtectModifier(perms)).table;
      Lookup(after, va) == if Lookup(t, va).None? || NoAccess(perms) then None else Some(PageInfo(Lookup(t, va).value.pfn, perms))
  {
    ProtectRangeEffect(t, region, perms);
    assert region.start / Slabs.PAGE_SIZE <= PageNumber(va) < region.start / Slabs.PAGE_SIZE + region.size / Slabs.PAGE_SIZE by {
      RegionPages(region, va);
    }
  }

  /// An address of an aligned region lies on one of its pages.
  lemma RegionPages(region: ProcVm.Region, va: nat)
    requires PageAligned(region) && region.Contains(va)
    ensures region.start / Slabs.PAGE_SIZE <= va / Slabs.PAGE_SIZE < region.start / Slabs.PAGE_SIZE + region.size / Slabs.PAGE_SIZE
  {
    var s, n := region.start / Slabs.PAGE_SIZE, region.size / Slabs.PAGE_SIZE;
    assert region.start == s * Slabs.PAGE_SIZE && region.size == n * Slabs.PAGE_SIZE;
    assert va < (s + n) * Slabs.PAGE_SIZE;
    DivBelow(va, Slabs.PAGE_SIZE, s + n);
    DivMono(region.start, va, Slabs.PAGE_SIZE);
    DivAdd(s, Slabs.PAGE_SIZE, 0);
  }

  /// What `unmap_range` leaves for one page: a mapped page becomes invalid.
  function Unmapped(found: Found): Found
  {
    match found
    case Desc(Mapped(_, _)) => Desc(Invalid)
    case _ => found
  }

  /// `unmap_range` on success invalidates every mapped page of the region
  /// and hands back their frames in address order: the frames of exactly
  /// the valid descriptors of the region.
  lemma UnmapRangeEffect(t: Table, region: ProcVm.Region)
    requires WF(t, 0) && InOneBlock(region)
    ensures var w := RegionWalk(t, region, UnmapModifier());
      var first, count := region.start / Slabs.PAGE_SIZE, region.size / Slabs.PAGE_SIZE;
      && w.error == (if !PageAligned(region) then Some(VirtNotAligned)
                     else if NoBlock(t, 0, first, count) then None else Some(NotL3Mapped))
      && (w.error.None? ==> forall p | first <= p < first + count :: Find(w.table, 0, p) == Unmapped(Find(t, 0, p)))
      && (w.error.None? ==> Frames(w.visits) == Frames(ValidVisits(t, 0, first, count)))
      && (w.error.None? ==> forall p | first <= p < first + count && Find(t, 0, p).Desc? && Find(t, 0, p).d.Mapped? ::
            Find(t, 0, p).d.frame in Frames(w.visits))
  {
    var first, count := region.start / Slabs.PAGE_SIZE, region.size / Slabs.PAGE_SIZE;
    RegionWalkEffect(t, region, UnmapModifier());
    if PageAligned(region) {
      forall p | first <= p < first + count && Find(t, 0, p).Desc? && Find(t, 0, p).d.Mapped?
        ensures Find(t, 0, p).d.frame in Frames(ValidVisits(t, 0, first, count))
      {
        ValidFrameListed(t, first, count, p);
      }
    }
  }

  lemma {:induction false} ValidFrameListed(t: Table, first: nat, count: nat, p: nat)
    requires WF(t, 0) && first <= p < first + count && Find(t, 0, p).Desc? && Find(t, 0, p).d.Mapped?
    ensures Find(t, 0, p).d.frame in Frames(ValidVisits(t, 0, first, count))
    decreases count
  {
    var here, rest := PageVisit(t, 0, first), ValidVisits(t, 0, first + 1, count - 1);
    assert ValidVisits(t, 0, first, count) == here + rest;
    FramesAppend(here, rest);
    if p > first {
      ValidFrameListed(t, first + 1, count - 1, p);
    } else {
      var d := Find(t, 0, p).d;
      assert here == [Visit(p * Slabs.PAGE_SIZE, d)];
      assert Frames(here) == [d.frame];
    }
  }

  lemma {:induction false} FramesAppend(a: seq<Visit>, b: seq<Visit>)
    ensures Frames(a + b) == Frames(a) + Frames(b)
    decreases |a|
  {
    if |a| > 0 {
      assert (a + b)[0] == a[0] && (a + b)[1..] == a[1..] + b;
      FramesAppend(a[1..], b);
    } else {
      assert a + b == b;
    }
  }

  /// After a successful `unmap_range` no address of the region is mapped.
  lemma UnmapThenLookup(t: Table, region: ProcVm.Region, va: nat)
    requires WF(t, 0) && InOneBlock(region) && region.Contains(va)
    requires RegionWalk(t, region, UnmapModifier()).error.None?
    ensures Lookup(RegionWalk(t, region, UnmapModifier()).table, va) == None
  {
    UnmapRangeEffect(t, region);
    RegionPages(region, va);
  }

  /// What `remap` returns given the walk over the page: the walk's error,
  /// else the frame of the descriptor the modifier replaced, else
  /// `NotL3Mapped` when it replaced none.
  function RemapResult(w: WalkResult): Result<nat>
  {
    if w.error.Some? then Err(w.error.value)
    else if |w.visits| > 0 && w.visits[|w.visits| - 1].desc.MappedAddress().Some? then
      Ok(w.visits[|w.visits| - 1].desc.MappedAddress().value)
    else Err(NotL3Mapped)
  }

  lemma PageRegionInOneBlock(va: nat)
    ensures PageAligned(PageRegion(va)) && InOneBlock(PageRegion(va))
    ensures PageRegion(va).start / Slabs.PAGE_SIZE == PageNumber(va) && PageRegion(va).size / Slabs.PAGE_SIZE == 1
  {
    PageOf(PageNumber(va));
  }

  /// The walk `remap` makes over the one page holding `va`.
  function RemapWalk(t: Table, va: nat, page: nat, perms: PtePermissions): WalkResult
    requires WF(t, 0)
  {
    PageRegionInOneBlock(va);
    RegionWalk(t, PageRegion(va), RemapModifier(page, perms))
  }

  /// `remap` replaces a mapped page by the new one with the new permissions
  /// and returns the old frame; when the page is not mapped it fails with
  /// `NotL3Mapped` and leaves the tables alone.
  lemma RemapEffect(t: Table, va: nat, page: nat, perms: PtePermissions)
    requires WF(t, 0)
    ensures var w := RemapWalk(t, va, page, perms);
      match Find(t, 0, PageNumber(va))
      case Desc(Mapped(was, _)) =>
        RemapResult(w) == Ok(was) && Lookup(w.table, va) == Some(PageInfo(page, perms))
      case _ => RemapResult(w) == Err(NotL3Mapped) && w.table == t
  {
    PageRegionInOneBlock(va);
    var p := PageNumber(va);
    var w := RegionWalk(t, PageRegion(va), RemapModifier(page, perms));
    RegionWalkEffect(t, PageRegion(va), RemapModifier(page, perms));
    assert ValidVisits(t, 0, p, 1) == PageVisit(t, 0, p) + ValidVisits(t, 0, p + 1, 0);
    if !Find(t, 0, p).Desc? || !Find(t, 0, p).d.Mapped? {
      assert w == Sweep(t, 0, p, 1, RemapModifier(page, perms));
      assert Sweep(t, 0, p + 1, 0, RemapModifier(page, perms)) == WalkResult(t, [], None);
    }
  }

  /// `Drop` hands the page allocator every frame the teardown reports.
  /// When no frame is shared, every table and mapped page comes back once.
  lemma DropReturnsAll(root: Table)
    requires WF(root, 0)
    requires forall x | x in Tables(root) + Payload(root) :: (Tables(root) + Payload(root))[x] == 1
    ensures multiset(AddressSpaceFreed(root)) == Tables(root) + Payload(root)
    ensures forall i, j | 0 <= i < j < |AddressSpaceFreed(root)| :: AddressSpaceFreed(root)[i] != AddressSpaceFreed(root)[j]
  {
    AddressSpaceContents(root);
    NoDoubleFree(root);
  }

  /// What `protect_and_clone_region` leaves for one page of the original: a
  /// mapped page takes the new permissions.
  function Cloned(found: Found, perms: PtePermissions): Found
  {
    match found
    case Desc(Mapped(frame, _)) => Desc(Mapped(frame, perms))
    case _ => found
  }

  /// `protect_and_clone_region` on success gives every mapped page of the
  /// region the new permissions and asks `map_range` to map exactly those
  /// pages, one page each, at the same addresses in the other space.
  lemma CloneEffect(t: Table, region: ProcVm.Region, perms: PtePermissions)
    requires WF(t, 0) && InOneBlock(region)
    ensures var w := RegionWalk(t, region, CloneModifier(perms));
      var first, count := region.start / Slabs.PAGE_SIZE, region.size / Slabs.PAGE_SIZE;
      && w.error == (if !PageAligned(region) then Some(VirtNotAligned)
                     else if NoBlock(t, 0, first, count) then None else Some(NotL3Mapped))
      && (w.error.None? ==> forall p | first <= p < first + count :: Find(w.table, 0, p) == Cloned(Find(t, 0, p), perms))
      && (w.error.None? ==> Requests(w.visits, perms) == Requests(ValidVisits(t, 0, first, count), perms))
      && (w.error.None? ==> forall p | first <= p < first + count && Find(t, 0, p).Desc? && Find(t, 0, p).d.Mapped? ::
            PageRequest(Find(t, 0, p).d.frame, p * Slabs.PAGE_SIZE, perms) in Requests(w.visits, perms))
  {
    var first, count := region.start / Slabs.PAGE_SIZE, region.size / Slabs.PAGE_SIZE;
    RegionWalkEffect(t, region, CloneModifier(perms));
    if PageAligned(region) {
      forall p | first <= p < first + count && Find(t, 0, p).Desc? && Find(t, 0, p).d.Mapped?
        ensures PageRequest(Find(t, 0, p).d.frame, p * Slabs.PAGE_SIZE, perms) in Requests(ValidVisits(t, 0, first, count), perms)
      {
        ValidRequestListed(t, first, count, p, perms);
      }
    }
  }

  lemma {:induction false} ValidRequestListed(t: Table, first: nat, count: nat, p: nat, perms: PtePermissions)
    requires WF(t, 0) && first <= p < first + count && Find(t, 0, p).Desc? && Find(t, 0, p).d.Mapped?
    ensures PageRequest(Find(t, 0, p).d.frame, p * Slabs.PAGE_SIZE, perms) in Requests(ValidVisits(t, 0, first, count), perms)
    decreases count
  {
    var here, rest := PageVisit(t, 0, first), ValidVisits(t, 0, first + 1, count - 1);
    assert ValidVisits(t, 0, first, count) == here + rest;
    RequestsAppend(here, rest, perms);
    if p > first {
      ValidRequestListed(t, first + 1, count - 1, p, perms);
    } else {
      var d := Find(t, 0, p).d;
      assert here == [Visit(p * Slabs.PAGE_SIZE, d)];
      assert Requests(here, perms) == [PageRequest(d.frame, p * Slabs.PAGE_SIZE, perms)];
    }
  }

  lemma {:induction false} RequestsAppend(a: seq<Visit>, b: seq<Visit>, perms: PtePermissions)
    ensures Requests(a + b, perms) == Requests(a, perms) + Requests(b, perms)
    decreases |a|
  {
    if |a| > 0 {
      assert (a + b)[0] == a[0] && (a + b)[1..] == a[1..] + b;
      RequestsAppend(a[1..], b, perms);
    } else {
      assert a + b == b;
    }
  }

  // ---------------------------------------------------------------------
  // The address space

  /// `Arm64ProcessAddressSpace`: the L0 table of one process.
  class AddressSpace {
    var l0: Table

    predicate Valid()
      reads this
    {
      WF(l0, 0)
    }

    /// `new`: a freshly allocated L0 table with no entries.
    constructor (frame: nat)
      ensures Valid() && l0 == Inner(frame, seq(ENTRIES, i => Empty))
    {
      l0 := Inner(frame, seq(ENTRIES, i => Empty));
    }

    /// `map_page`: asks `map_range` to map one page of `page` at `va`.
    method MapPage(page: nat, va: nat, perms: PtePermissions, mapRange: MapRange) returns (r: Result<()>)
      requires Valid() && KeepsWF(mapRange)
      modifies this
      ensures Valid()
      ensures var o := mapRange(old(l0), MapAttributes(ProcVm.Region(page * Slabs.PAGE_SIZE, Slabs.PAGE_SIZE),
                                                        ProcVm.Region(va, Slabs.PAGE_SIZE), perms));
        l0 == o.table && r == if o.error.Some? then Err(o.error.value) else Ok(())
    {
      var o := mapRange(l0, PageRequest(page, va, perms));
      l0 := o.table;
      if o.error.Some? {
        return Err(o.error.value);
      }
      return Ok(());
    }

    /// `protect_range`: walks the region with the protecting modifier.
    method ProtectRange(region: ProcVm.Region, perms: PtePermissions) returns (r: Result<()>)
      requires Valid() && InOneBlock(region)
      modifies this
      ensures Valid()
      ensures var w := RegionWalk(old(l0), region, ProtectModifier(perms));
        l0 == w.table && r == if w.error.Some? then Err(w.error.value) else Ok(())
    {
      var w := WalkAndModifyRegion(l0, region, ProtectModifier(perms));
      l0 := w.table;
      if w.error.Some? {
        return Err(w.error.value);
      }
      return Ok(());
    }

    /// `unmap_range`: walks the region invalidating each mapped page, the
    /// modifier collecting the frames it unmaps.
    method UnmapRange(region: ProcVm.Region) returns (r: Result<seq<nat>>)
      requires Valid() && InOneBlock(region)
      modifies this
      ensures Valid()
      ensures var w := RegionWalk(old(l0), region, UnmapModifier());
        l0 == w.table && r == if w.error.Some? then Err(w.error.value) else Ok(Frames(w.visits))
    {
      var w := WalkAndModifyRegion(l0, region, UnmapModifier());
      l0 := w.table;
      var claimed: seq<nat> := [];
      var i := |w.visits|;
      while i > 0
        invariant 0 <= i <= |w.visits| && claimed == Frames(w.visits[i..])
      {
        i := i - 1;
        assert w.visits[i..][1..] == w.visits[i + 1..];
        match w.visits[i].desc.MappedAddress() {
          case Some(a) => claimed := [a] + claimed;
          case None =>
        }
      }
      assert w.visits[0..] == w.visits;
      if w.error.Some? {
        return Err(w.error.value);
      }
      return Ok(claimed);
    }

    /// `remap`: walks the one page of `va`, installing the new page and
    /// recording the descriptor it replaces.
    method Remap(va: nat, page: nat, perms: PtePermissions) returns (r: Result<nat>)
      requires Valid()
      modifies this
      ensures Valid()
      ensures var w := RemapWalk(old(l0), va, page, perms);
        l0 == w.table && r == RemapResult(w)
    {
      PageRegionInOneBlock(va);
      var w := WalkAndModifyRegion(l0, PageRegion(va), RemapModifier(page, perms));
      l0 := w.table;
      if w.error.Some? {
        return Err(w.error.value);
      }
      var oldPte: Option<L3Desc> := None;
      for i := 0 to |w.visits|
        invariant i > 0 ==> oldPte == Some(w.visits[i - 1].desc)
        invariant i == 0 ==> oldPte.None?
      {
        oldPte := Some(w.visits[i].desc);
      }
      if oldPte.Some? && oldPte.value.MappedAddress().Some? {
        return Ok(oldPte.value.MappedAddress().value);
      }
      return Err(NotL3Mapped);
    }

    /// `translate`: the frame and permissions of the page holding `va`, or
    /// nothing. A block mapping makes the lookup fail, which `translate`
    /// does not allow.
    method Translate(va: nat) returns (r: Option<PageInfo>)
      requires Valid() && Find(l0, 0, PageNumber(va)) != AtBlock
      ensures r.Some? <==> Find(l0, 0, PageNumber(va)).Desc? && Find(l0, 0, PageNumber(va)).d.Mapped?
      ensures r.Some? ==> Find(l0, 0, PageNumber(va)) == Desc(Mapped(r.value.pfn, r.value.perms))
    {
      var pte := GetPte(l0, PageNumber(va) * Slabs.PAGE_SIZE);
      PageOf(PageNumber(va));
      match pte {
        case Ok(Some(d)) =>
          match d.MappedAddress() {
            case Some(a) => return Some(PageInfo(a, d.perms));
            case None => return None;
          }
        case Ok(None) => return None;
        case Err(_) => assert false; return None;
      }
    }

    /// `protect_and_clone_region`: walks the region; for each mapped page
    /// it takes a further reference on the frame, maps it at the same
    /// address into `other` with the new permissions, and gives the
    /// original the new permissions too. The frames whose reference counts
    /// were raised are returned beside the result.
    method ProtectAndCloneRegion(region: ProcVm.Region, other: AddressSpace, perms: PtePermissions, mapRange: MapRange)
      returns (r: Result<()>, shared: seq<nat>)
      requires Valid() && other.Valid() && other != this && InOneBlock(region) && KeepsWF(mapRange)
      requires forall t: Table, a: MapAttributes :: mapRange(t, a).error.None?
      modifies this, other
      ensures Valid() && other.Valid()
      ensures var w := RegionWalk(old(l0), region, CloneModifier(perms));
        && l0 == w.table
        && other.l0 == MapEach(old(other.l0), Requests(w.visits, perms), mapRange)
        && shared == Frames(w.visits)
        && r == if w.error.Some? then Err(w.error.value) else Ok(())
    {
      var w := WalkAndModifyRegion(l0, region, CloneModifier(perms));
      l0 := w.table;
      shared := [];
      ghost var start := other.l0;
      for i := 0 to |w.visits|
        invariant l0 == w.table && WF(other.l0, 0)
        invariant shared == Frames(w.visits[..i])
        invariant MapEach(start, Requests(w.visits, perms), mapRange)
               == MapEach(other.l0, Requests(w.visits[i..], perms), mapRange)
      {
        var v := w.visits[i];
        assert w.visits[i..] == [v] + w.visits[i + 1..];
        assert w.visits[..i + 1] == w.visits[..i] + [v];
        FramesAppend(w.visits[..i], [v]);
        RequestsAppend([v], w.visits[i + 1..], perms);
        var rest := Requests(w.visits[i + 1..], perms);
        match v.desc.MappedAddress() {
          case Some(a) =>
            var request := PageRequest(a, v.va, perms);
            assert Frames([v]) == [a];
            assert Requests([v], perms) == [request];
            assert ([request] + rest)[0] == request && ([request] + rest)[1..] == rest;
            shared := shared + [a];
            other.l0 := mapRange(other.l0, request).table;
          case None =>
            assert Frames([v]) == [];
            assert Requests([v], perms) == [];
            assert [] + rest == rest;
        }
      }
      assert w.visits[..|w.visits|] == w.visits;
      r := if w.error.Some? then Err(w.error.value) else Ok(());
    }

    /// `Drop`: tears the address space down and returns every frame the
    /// teardown reports to the page allocator.
    method Drop() returns (returned: seq<nat>)
      requires Valid()
      ensures returned == AddressSpaceFreed(l0)
    {
      returned := TearDownAddressSpace(l0);
    }
  }
}
