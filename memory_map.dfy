/// A process's map of virtual memory areas (VMAs): `mmap` with its three
/// kinds of address request, `munmap`, `mprotect` and the merging insert,
/// together with the page-table operations each of them issues.
///
/// Every operation is specified by what it does to each address: `At`
/// gives the permissions and backing found there. The list of VMAs is kept
/// sorted and fully merged, and `CanonicalUnique` shows that such a list is
/// determined by `At` alone, so any implementation meeting the per-address
/// specification ends in the same list of VMAs.
module ProcVm {
  import opened Common
  import opened Permissions

  /// A range of virtual addresses [start, start + size).
  datatype Region = Region(start: nat, size: nat)
  {
    function End(): nat
    {
      start + size
    }

    predicate Contains(a: nat)
    {
      start <= a < End()
    }
  }

  /// Some address lies in both regions.
  predicate Overlap(x: Region, y: Region)
  {
    x.start < y.End() && y.start < x.End() && 0 < x.size && 0 < y.size
  }

  /// The common part of two overlapping regions.
  function Intersection(x: Region, y: Region): (i: Region)
    requires Overlap(x, y)
    ensures i.size > 0
    ensures forall a :: i.Contains(a) <==> x.Contains(a) && y.Contains(a)
  {
    var s := Max(x.start, y.start);
    Region(s, Min(x.End(), y.End()) - s)
  }

  /// What backs a VMA: anonymous memory, or a file from `offset` on. The
  /// file is identified by a number; its length is the VMA's size.
  datatype Backing = Anon | File(file: nat, offset: nat)

  datatype Vma = Vma(region: Region, backing: Backing, perms: VmaPermissions)

  /// The backing `d` bytes further on.
  function Shift(b: Backing, d: nat): Backing
  {
    match b
    case Anon => Anon
    case File(f, o) => File(f, o + d)
  }

  /// What one address of a mapping shows: its permissions and its backing
  /// (for a file, the file offset of that very address).
  datatype PageAttr = PageAttr(backing: Backing, perms: VmaPermissions)

  function AttrAt(v: Vma, a: nat): PageAttr
    requires v.region.start <= a
  {
    PageAttr(Shift(v.backing, a - v.region.start), v.perms)
  }

  /// `find_vma`: the first VMA that contains `a`.
  function FindVma(vs: seq<Vma>, a: nat): (r: Option<Vma>)
    ensures r.Some? ==> r.value in vs && r.value.region.Contains(a)
    ensures r.None? ==> forall v | v in vs :: !v.region.Contains(a)
  {
    if vs == [] then None
    else if vs[0].region.Contains(a) then Some(vs[0])
    else FindVma(vs[1..], a)
  }

  /// The attributes the map gives address `a`, or None when it is unmapped.
  function At(vs: seq<Vma>, a: nat): Option<PageAttr>
  {
    match FindVma(vs, a)
    case None => None
    case Some(v) => Some(AttrAt(v, a))
  }

  // ---------------------------------------------------------------------
  // Shape of the list: sorted, non-empty VMAs, fully merged

  /// The VMAs are non-empty, start at `lo` or later and each starts at or
  /// after the end of the one before.
  predicate SortedFrom(vs: seq<Vma>, lo: nat)
  {
    vs == [] ||
    (lo <= vs[0].region.start && vs[0].region.size > 0 && SortedFrom(vs[1..], vs[0].region.End()))
  }

  predicate Sorted(vs: seq<Vma>)
  {
    SortedFrom(vs, 0)
  }

  /// `w` carries on exactly where `v` stops: adjacent, same permissions,
  /// and the same backing continued (anonymous after anonymous, or the same
  /// file at the next offset). Such a pair is one VMA in the map.
  predicate Mergeable(v: Vma, w: Vma)
  {
    v.region.End() == w.region.start && v.perms == w.perms
    && w.backing == Shift(v.backing, v.region.size)
  }

  /// No two neighbours could be merged.
  predicate Canonical(vs: seq<Vma>)
  {
    |vs| < 2 || (!Mergeable(vs[0], vs[1]) && Canonical(vs[1..]))
  }

  /// No VMA overlaps `r`.
  predicate Free(vs: seq<Vma>, r: Region)
  {
    vs == [] || (!Overlap(vs[0].region, r) && Free(vs[1..], r))
  }

  // ---------------------------------------------------------------------
  // Cutting, retagging, inserting and merging

  /// The part [s, e) of `v`, its file offset moved along with its start.
  function Restrict(v: Vma, s: nat, e: nat): Vma
    requires v.region.start <= s <= e
  {
    Vma(Region(s, e - s), Shift(v.backing, s - v.region.start), v.perms)
  }

  /// The piece of `v` below `r`, if any.
  function Below(v: Vma, r: Region): seq<Vma>
  {
    if v.region.start < r.start then [Restrict(v, v.region.start, Min(v.region.End(), r.start))] else []
  }

  /// The piece of `v` above `r`, if any.
  function Above(v: Vma, r: Region): seq<Vma>
  {
    if r.End() < v.region.End() then [Restrict(v, Max(v.region.start, r.End()), v.region.End())] else []
  }

  /// The piece of `v` inside `r`, if any, with permissions `p`.
  function Inside(v: Vma, r: Region, p: VmaPermissions): seq<Vma>
  {
    if Overlap(v.region, r) then
      var i := Intersection(v.region, r);
      [Restrict(v, i.start, i.End()).(perms := p)]
    else []
  }

  /// Every VMA with the part inside `r` cut out.
  function Remove(vs: seq<Vma>, r: Region): seq<Vma>
  {
    if vs == [] then [] else Below(vs[0], r) + Above(vs[0], r) + Remove(vs[1..], r)
  }

  /// Every VMA split at the bounds of `r`, the parts inside given `p`.
  function Retag(vs: seq<Vma>, r: Region, p: VmaPermissions): seq<Vma>
  {
    if vs == [] then [] else Below(vs[0], r) + Inside(vs[0], r, p) + Above(vs[0], r) + Retag(vs[1..], r, p)
  }

  /// The parts of the VMAs that lie inside `r`, in list order: one
  /// page-table operation is issued for each.
  function Affected(vs: seq<Vma>, r: Region): seq<Region>
  {
    if vs == [] then []
    else (if Overlap(vs[0].region, r) then [Intersection(vs[0].region, r)] else []) + Affected(vs[1..], r)
  }

  /// `v` put in its place by start address.
  function InsertSorted(vs: seq<Vma>, v: Vma): seq<Vma>
  {
    if vs == [] || v.region.End() <= vs[0].region.start then [v] + vs
    else [vs[0]] + InsertSorted(vs[1..], v)
  }

  /// `v` followed by `w`, as one VMA: `v`'s start and backing.
  function Join(v: Vma, w: Vma): Vma
  {
    Vma(Region(v.region.start, v.region.size + w.region.size), v.backing, v.perms)
  }

  /// Every mergeable pair of neighbours merged.
  function Coalesce(vs: seq<Vma>): seq<Vma>
  {
    if |vs| < 2 then vs
    else
      var rest := Coalesce(vs[1..]);
      if rest != [] && Mergeable(vs[0], rest[0]) then [Join(vs[0], rest[0])] + rest[1..]
      else [vs[0]] + rest
  }

  // ---------------------------------------------------------------------
  // The operations on the list

  /// `insert_and_merge`: `v` is added and merged with the neighbours it
  /// continues.
  function Inserted(vs: seq<Vma>, v: Vma): seq<Vma>
  {
    Coalesce(InsertSorted(vs, v))
  }

  /// What `mmap` leaves once it has chosen the region of `v`: whatever lay
  /// there is replaced by `v`.
  function Placed(vs: seq<Vma>, v: Vma): seq<Vma>
  {
    Inserted(Remove(vs, v.region), v)
  }

  /// What `munmap` leaves.
  function Unmapped(vs: seq<Vma>, r: Region): seq<Vma>
  {
    Coalesce(Remove(vs, r))
  }

  /// What `mprotect` leaves.
  function Protected(vs: seq<Vma>, r: Region, p: VmaPermissions): seq<Vma>
  {
    Coalesce(Retag(vs, r, p))
  }

  // ---------------------------------------------------------------------
  // What the list operations do at each address

  lemma {:induction false} FindVmaConcat(xs: seq<Vma>, ys: seq<Vma>, a: nat)
    ensures FindVma(xs + ys, a) == if FindVma(xs, a).Some? then FindVma(xs, a) else FindVma(ys, a)
    decreases |xs|
  {
    if xs == [] {
      assert xs + ys == ys;
    } else {
      assert (xs + ys)[1..] == xs[1..] + ys;
      FindVmaConcat(xs[1..], ys, a);
    }
  }

  lemma AtConcat(xs: seq<Vma>, ys: seq<Vma>, a: nat)
    ensures At(xs + ys, a) == if At(xs, a).Some? then At(xs, a) else At(ys, a)
  {
    FindVmaConcat(xs, ys, a);
  }

  lemma AtBelow(v: Vma, r: Region, a: nat)
    ensures At(Below(v, r), a)
         == if v.region.Contains(a) && a < r.start then Some(AttrAt(v, a)) else None
  {
  }

  lemma AtAbove(v: Vma, r: Region, a: nat)
    ensures At(Above(v, r), a)
         == if v.region.Contains(a) && r.End() <= a then Some(AttrAt(v, a)) else None
  {
  }

  lemma AtInside(v: Vma, r: Region, p: VmaPermissions, a: nat)
    ensures At(Inside(v, r, p), a)
         == if v.region.Contains(a) && r.Contains(a) then Some(AttrAt(v, a).(perms := p)) else None
  {
  }

  /// What the pieces of `v` outside `r` show.
  lemma AtCut(v: Vma, r: Region, a: nat)
    ensures At(Below(v, r) + Above(v, r), a)
         == if v.region.Contains(a) && !r.Contains(a) then Some(AttrAt(v, a)) else None
  {
    AtConcat(Below(v, r), Above(v, r), a);
    AtBelow(v, r, a);
    AtAbove(v, r, a);
  }

  /// What the three pieces of `v` split at the bounds of `r` show.
  lemma AtSplit(v: Vma, r: Region, p: VmaPermissions, a: nat)
    ensures At(Below(v, r) + Inside(v, r, p) + Above(v, r), a)
         == if !v.region.Contains(a) then None
            else if r.Contains(a) then Some(AttrAt(v, a).(perms := p))
            else Some(AttrAt(v, a))
  {
    AtConcat(Below(v, r) + Inside(v, r, p), Above(v, r), a);
    AtConcat(Below(v, r), Inside(v, r, p), a);
    AtBelow(v, r, a);
    AtInside(v, r, p, a);
    AtAbove(v, r, a);
  }

  /// `munmap`'s cut: addresses in `r` become unmapped, the others keep
  /// their permissions and backing.
  lemma {:induction false} AtRemove(vs: seq<Vma>, r: Region, a: nat)
    ensures At(Remove(vs, r), a) == if r.Contains(a) then None else At(vs, a)
    decreases |vs|
  {
    if vs != [] {
      AtConcat(Below(vs[0], r) + Above(vs[0], r), Remove(vs[1..], r), a);
      AtCut(vs[0], r, a);
      AtRemove(vs[1..], r, a);
    }
  }

  /// `mprotect`'s split: mapped addresses in `r` get permissions `p` and
  /// keep their backing; nothing else changes.
  lemma {:induction false} AtRetag(vs: seq<Vma>, r: Region, p: VmaPermissions, a: nat)
    ensures At(Retag(vs, r, p), a)
         == if r.Contains(a) && At(vs, a).Some? then Some(At(vs, a).value.(perms := p)) else At(vs, a)
    decreases |vs|
  {
    if vs != [] {
      AtConcat(Below(vs[0], r) + Inside(vs[0], r, p) + Above(vs[0], r), Retag(vs[1..], r, p), a);
      AtSplit(vs[0], r, p, a);
      AtRetag(vs[1..], r, p, a);
    }
  }

  /// Inserting a VMA over a free range maps exactly that range.
  lemma {:induction false} AtInsertSorted(vs: seq<Vma>, v: Vma, a: nat)
    requires Free(vs, v.region)
    ensures At(InsertSorted(vs, v), a)
         == if v.region.Contains(a) then Some(AttrAt(v, a)) else At(vs, a)
    decreases |vs|
  {
    if vs != [] && v.region.End() > vs[0].region.start {
      AtInsertSorted(vs[1..], v, a);
    }
  }

  /// Merging changes no address.
  lemma {:induction false} AtCoalesce(vs: seq<Vma>, a: nat)
    ensures At(Coalesce(vs), a) == At(vs, a)
    decreases |vs|
  {
    if |vs| >= 2 {
      AtCoalesce(vs[1..], a);
    }
  }

  // ---------------------------------------------------------------------
  // The operations keep the list sorted and fully merged

  /// Every VMA ends by `m`.
  predicate EndsBy(vs: seq<Vma>, m: nat)
  {
    forall i | 0 <= i < |vs| :: vs[i].region.End() <= m
  }

  lemma {:induction false} SortedConcat(xs: seq<Vma>, ys: seq<Vma>, lo: nat, m: nat)
    requires SortedFrom(xs, lo) && EndsBy(xs, m) && SortedFrom(ys, m) && lo <= m
    ensures SortedFrom(xs + ys, lo)
    decreases |xs|
  {
    if xs == [] {
      assert xs + ys == ys;
    } else {
      assert (xs + ys)[1..] == xs[1..] + ys;
      SortedConcat(xs[1..], ys, xs[0].region.End(), m);
    }
  }

  lemma {:induction false} SortedRemove(vs: seq<Vma>, r: Region, lo: nat)
    requires SortedFrom(vs, lo)
    ensures SortedFrom(Remove(vs, r), lo)
    decreases |vs|
  {
    if vs != [] {
      var v := vs[0];
      SortedRemove(vs[1..], r, v.region.End());
      SortedConcat(Below(v, r) + Above(v, r), Remove(vs[1..], r), lo, v.region.End());
    }
  }

  /// The three pieces of a split VMA lie in order within it.
  lemma SortedSplit(v: Vma, r: Region, p: VmaPermissions, lo: nat)
    requires lo <= v.region.start && v.region.size > 0
    ensures SortedFrom(Below(v, r) + Inside(v, r, p) + Above(v, r), lo)
    ensures EndsBy(Below(v, r) + Inside(v, r, p) + Above(v, r), v.region.End())
  {
    var x := Max(v.region.start, r.start);
    var y := Max(v.region.start, r.End());
    SortedConcat(Below(v, r), Inside(v, r, p), lo, x);
    SortedConcat(Below(v, r) + Inside(v, r, p), Above(v, r), lo, y);
  }

  lemma {:induction false} SortedRetag(vs: seq<Vma>, r: Region, p: VmaPermissions, lo: nat)
    requires SortedFrom(vs, lo)
    ensures SortedFrom(Retag(vs, r, p), lo)
    decreases |vs|
  {
    if vs != [] {
      var v := vs[0];
      SortedRetag(vs[1..], r, p, v.region.End());
      SortedSplit(v, r, p, lo);
      SortedConcat(Below(v, r) + Inside(v, r, p) + Above(v, r), Retag(vs[1..], r, p), lo, v.region.End());
    }
  }

  lemma {:induction false} FreeConcat(xs: seq<Vma>, ys: seq<Vma>, r: Region)
    requires Free(xs, r) && Free(ys, r)
    ensures Free(xs + ys, r)
    decreases |xs|
  {
    if xs == [] {
      assert xs + ys == ys;
    } else {
      assert (xs + ys)[1..] == xs[1..] + ys;
      FreeConcat(xs[1..], ys, r);
    }
  }

  /// Nothing is left inside a range that was cut out.
  lemma {:induction false} FreeRemove(vs: seq<Vma>, r: Region)
    ensures Free(Remove(vs, r), r)
    decreases |vs|
  {
    if vs != [] {
      FreeRemove(vs[1..], r);
      FreeConcat(Below(vs[0], r), Above(vs[0], r), r);
      FreeConcat(Below(vs[0], r) + Above(vs[0], r), Remove(vs[1..], r), r);
    }
  }

  lemma {:induction false} SortedInsert(vs: seq<Vma>, v: Vma, lo: nat)
    requires SortedFrom(vs, lo) && Free(vs, v.region)
    requires lo <= v.region.start && v.region.size > 0
    ensures SortedFrom(InsertSorted(vs, v), lo)
    decreases |vs|
  {
    if vs != [] && v.region.End() > vs[0].region.start {
      SortedInsert(vs[1..], v, vs[0].region.End());
      assert ([vs[0]] + InsertSorted(vs[1..], v))[1..] == InsertSorted(vs[1..], v);
    } else {
      assert ([v] + vs)[1..] == vs;
    }
  }

  /// Merging keeps the list sorted and keeps where it starts.
  lemma {:induction false} SortedCoalesce(vs: seq<Vma>, lo: nat)
    requires SortedFrom(vs, lo)
    ensures SortedFrom(Coalesce(vs), lo)
    ensures vs != [] ==> Coalesce(vs) != [] && Coalesce(vs)[0].region.start == vs[0].region.start
    decreases |vs|
  {
    if |vs| >= 2 {
      var rest := Coalesce(vs[1..]);
      SortedCoalesce(vs[1..], vs[0].region.End());
      if Mergeable(vs[0], rest[0]) {
        assert ([Join(vs[0], rest[0])] + rest[1..])[1..] == rest[1..];
      } else {
        assert ([vs[0]] + rest)[1..] == rest;
      }
    }
  }

  /// After merging, no two neighbours can be merged.
  lemma {:induction false} CanonicalCoalesce(vs: seq<Vma>)
    ensures Canonical(Coalesce(vs))
    decreases |vs|
  {
    if |vs| >= 2 {
      var rest := Coalesce(vs[1..]);
      CanonicalCoalesce(vs[1..]);
      if rest != [] && Mergeable(vs[0], rest[0]) {
        var c := [Join(vs[0], rest[0])] + rest[1..];
        assert c[1..] == rest[1..];
        if |rest| >= 2 {
          assert c[1] == rest[1];
          assert !Mergeable(rest[0], rest[1]);
        }
      } else {
        assert ([vs[0]] + rest)[1..] == rest;
      }
    }
  }

  // ---------------------------------------------------------------------
  // A sorted, fully merged list is determined by what it maps

  /// Below where a sorted list starts, nothing is mapped.
  lemma {:induction false} UnmappedBelow(vs: seq<Vma>, lo: nat, a: nat)
    requires SortedFrom(vs, lo) && a < lo
    ensures At(vs, a).None?
    decreases |vs|
  {
    if vs != [] {
      UnmappedBelow(vs[1..], vs[0].region.End(), a);
    }
  }

  lemma StartMapped(vs: seq<Vma>)
    requires vs != [] && vs[0].region.size > 0
    ensures At(vs, vs[0].region.start).Some?
  {
  }

  /// The first VMAs of two lists that map alike start together.
  lemma FirstStartsAgree(xs: seq<Vma>, ys: seq<Vma>, lo: nat)
    requires SortedFrom(xs, lo) && SortedFrom(ys, lo) && xs != [] && ys != []
    requires forall a :: At(xs, a) == At(ys, a)
    ensures xs[0].region.start <= ys[0].region.start
  {
    var s := ys[0].region.start;
    if s < xs[0].region.start {
      assert At(ys, s).Some?;
      UnmappedBelow(xs, xs[0].region.start, s);
    }
  }

  /// ... and, when the first list is fully merged and both start alike,
  /// the first VMA of the second list reaches at least as far.
  lemma FirstEndsAgree(xs: seq<Vma>, ys: seq<Vma>, lo: nat)
    requires SortedFrom(xs, lo) && SortedFrom(ys, lo) && xs != [] && ys != []
    requires Canonical(xs)
    requires forall a :: At(xs, a) == At(ys, a)
    requires xs[0].region.start == ys[0].region.start
    ensures xs[0].region.End() >= ys[0].region.End()
  {
    var x, y := xs[0], ys[0];
    var e := x.region.End();
    if e < y.region.End() {
      assert At(xs, x.region.start) == At(ys, x.region.start);
      assert At(ys, e) == Some(AttrAt(y, e));
      if xs[1..] == [] || xs[1].region.start > e {
        UnmappedBelow(xs[1..], if xs[1..] == [] then e + 1 else xs[1].region.start, e);
        assert false;
      }
      assert false;
    }
  }

  /// Two sorted, fully merged lists that map every address alike are the
  /// same list: whatever order an implementation cuts and merges in, its
  /// result is fixed by what each address maps to.
  lemma {:induction false} CanonicalUnique(xs: seq<Vma>, ys: seq<Vma>, lo: nat)
    requires SortedFrom(xs, lo) && SortedFrom(ys, lo) && Canonical(xs) && Canonical(ys)
    requires forall a :: At(xs, a) == At(ys, a)
    ensures xs == ys
    decreases |xs|
  {
    if xs == [] || ys == [] {
      if xs != [] {
        StartMapped(xs);
      } else if ys != [] {
        StartMapped(ys);
      }
    } else {
      var x, y := xs[0], ys[0];
      FirstStartsAgree(xs, ys, lo);
      FirstStartsAgree(ys, xs, lo);
      FirstEndsAgree(xs, ys, lo);
      FirstEndsAgree(ys, xs, lo);
      assert At(xs, x.region.start) == At(ys, y.region.start);
      assert x == y;
      forall a
        ensures At(xs[1..], a) == At(ys[1..], a)
      {
        if x.region.Contains(a) {
          UnmappedBelow(xs[1..], x.region.End(), a);
          UnmappedBelow(ys[1..], x.region.End(), a);
        } else {
          assert At(xs, a) == At(ys, a);
        }
      }
      CanonicalUnique(xs[1..], ys[1..], x.region.End());
    }
  }

  // ---------------------------------------------------------------------
  // The operations, address by address

  /// `insert_and_merge` maps the new VMA's range as that VMA and leaves the
  /// rest alone, and the list stays sorted and fully merged.
  lemma InsertedSpec(vs: seq<Vma>, v: Vma, a: nat)
    requires Sorted(vs) && Free(vs, v.region) && v.region.size > 0
    ensures Sorted(Inserted(vs, v)) && Canonical(Inserted(vs, v))
    ensures At(Inserted(vs, v), a) == if v.region.Contains(a) then Some(AttrAt(v, a)) else At(vs, a)
  {
    SortedInsert(vs, v, 0);
    SortedCoalesce(InsertSorted(vs, v), 0);
    CanonicalCoalesce(InsertSorted(vs, v));
    AtCoalesce(InsertSorted(vs, v), a);
    AtInsertSorted(vs, v, a);
  }

  /// A mapping placed over a range replaces whatever lay there.
  lemma PlacedSpec(vs: seq<Vma>, v: Vma, a: nat)
    requires Sorted(vs) && v.region.size > 0
    ensures Sorted(Placed(vs, v)) && Canonical(Placed(vs, v))
    ensures At(Placed(vs, v), a) == if v.region.Contains(a) then Some(AttrAt(v, a)) else At(vs, a)
  {
    SortedRemove(vs, v.region, 0);
    FreeRemove(vs, v.region);
    InsertedSpec(Remove(vs, v.region), v, a);
    AtRemove(vs, v.region, a);
  }

  /// `munmap` unmaps exactly the range.
  lemma UnmappedSpec(vs: seq<Vma>, r: Region, a: nat)
    requires Sorted(vs)
    ensures Sorted(Unmapped(vs, r)) && Canonical(Unmapped(vs, r))
    ensures At(Unmapped(vs, r), a) == if r.Contains(a) then None else At(vs, a)
  {
    SortedRemove(vs, r, 0);
    SortedCoalesce(Remove(vs, r), 0);
    CanonicalCoalesce(Remove(vs, r));
    AtCoalesce(Remove(vs, r), a);
    AtRemove(vs, r, a);
  }

  /// `mprotect` changes the permissions of the mapped addresses of the
  /// range, keeps every backing (file offsets included) and maps nothing new.
  lemma ProtectedSpec(vs: seq<Vma>, r: Region, p: VmaPermissions, a: nat)
    requires Sorted(vs)
    ensures Sorted(Protected(vs, r, p)) && Canonical(Protected(vs, r, p))
    ensures At(Protected(vs, r, p), a)
         == if r.Contains(a) && At(vs, a).Some? then Some(At(vs, a).value.(perms := p)) else At(vs, a)
  {
    SortedRetag(vs, r, p, 0);
    SortedCoalesce(Retag(vs, r, p), 0);
    CanonicalCoalesce(Retag(vs, r, p));
    AtCoalesce(Retag(vs, r, p), a);
    AtRetag(vs, r, p, a);
  }

  /// Protecting a range and then giving it back the permissions it had
  /// restores the very same VMAs: the split pieces merge again.
  lemma ProtectRestores(vs: seq<Vma>, r: Region, p: VmaPermissions, q: VmaPermissions)
    requires Sorted(vs) && Canonical(vs)
    requires forall a | r.Contains(a) && At(vs, a).Some? :: At(vs, a).value.perms == q
    ensures Protected(Protected(vs, r, p), r, q) == vs
  {
    var w := Protected(vs, r, p);
    var u := Protected(w, r, q);
    ProtectedSpec(vs, r, p, 0);
    ProtectedSpec(w, r, q, 0);
    forall a
      ensures At(u, a) == At(vs, a)
    {
      ProtectedSpec(vs, r, p, a);
      ProtectedSpec(w, r, q, a);
    }
    CanonicalUnique(u, vs, 0);
  }

  /// Unmapping a range twice is unmapping it once.
  lemma UnmapIdempotent(vs: seq<Vma>, r: Region)
    requires Sorted(vs)
    ensures Unmapped(Unmapped(vs, r), r) == Unmapped(vs, r)
  {
    var w := Unmapped(vs, r);
    UnmappedSpec(vs, r, 0);
    UnmappedSpec(w, r, 0);
    forall a
      ensures At(Unmapped(w, r), a) == At(w, a)
    {
      UnmappedSpec(vs, r, a);
      UnmappedSpec(w, r, a);
    }
    CanonicalUnique(Unmapped(w, r), w, 0);
  }

  /// Inserting next to a single VMA merges the two exactly when the new one
  /// continues it (same permissions, and anonymous, or the same file at the
  /// next offset); the merged VMA keeps the first one's offset.
  lemma InsertAfter(u: Vma, v: Vma)
    requires u.region.size > 0 && v.region.size > 0 && u.region.End() <= v.region.start
    ensures Inserted([u], v) == if Mergeable(u, v) then [Join(u, v)] else [u, v]
  {
    assert InsertSorted([u], v) == [u, v] by {
      assert [u][1..] == [];
    }
    assert [u, v][1..] == [v];
    assert Coalesce([v]) == [v];
    assert [v][1..] == [];
  }

  lemma InsertBefore(v: Vma, w: Vma)
    requires v.region.size > 0 && w.region.size > 0 && v.region.End() <= w.region.start
    ensures Inserted([w], v) == if Mergeable(v, w) then [Join(v, w)] else [v, w]
  {
    assert InsertSorted([w], v) == [v, w];
    assert [v, w][1..] == [w];
    assert Coalesce([w]) == [w];
    assert [w][1..] == [];
  }

  /// A VMA that fills the gap between two it continues merges all three
  /// into one, which starts where the first did with the first's offset.
  lemma InsertBridges(u: Vma, v: Vma, w: Vma)
    requires u.region.size > 0 && v.region.size > 0 && w.region.size > 0
    requires Mergeable(u, v) && Mergeable(v, w)
    ensures Inserted([u, w], v)
         == [Vma(Region(u.region.start, u.region.size + v.region.size + w.region.size), u.backing, u.perms)]
  {
    assert InsertSorted([u, w], v) == [u, v, w] by {
      assert [u, w][1..] == [w];
    }
    assert Coalesce([v, w]) == [Join(v, w)] by {
      assert [v, w][1..] == [w];
    }
    assert Coalesce([u, v, w]) == [Join(u, Join(v, w))] by {
      assert [u, v, w][1..] == [v, w];
    }
  }

  // ---------------------------------------------------------------------
  // The page-table operations issued

  /// `a` lies in one of the regions.
  predicate Covers(rs: seq<Region>, a: nat)
  {
    rs != [] && (rs[0].Contains(a) || Covers(rs[1..], a))
  }

  /// The regions are non-empty, start at `lo` or later, and come in
  /// address order without overlapping.
  predicate AscendingFrom(rs: seq<Region>, lo: nat)
  {
    rs == [] || (lo <= rs[0].start && rs[0].size > 0 && AscendingFrom(rs[1..], rs[0].End()))
  }

  /// One operation per affected piece: together they cover exactly the
  /// mapped addresses of the range.
  lemma {:induction false} AffectedCovers(vs: seq<Vma>, r: Region, a: nat)
    ensures Covers(Affected(vs, r), a) <==> r.Contains(a) && At(vs, a).Some?
    decreases |vs|
  {
    if vs != [] {
      AffectedCovers(vs[1..], r, a);
      if Overlap(vs[0].region, r) {
        assert Affected(vs, r)[1..] == Affected(vs[1..], r);
        assert Affected(vs, r)[0] == Intersection(vs[0].region, r);
      } else {
        assert Affected(vs, r) == Affected(vs[1..], r);
      }
    }
  }

  /// Every piece lies inside the range.
  lemma {:induction false} AffectedWithin(vs: seq<Vma>, r: Region)
    ensures forall i | 0 <= i < |Affected(vs, r)| ::
      r.start <= Affected(vs, r)[i].start && Affected(vs, r)[i].End() <= r.End()
    decreases |vs|
  {
    if vs != [] {
      AffectedWithin(vs[1..], r);
    }
  }

  /// The pieces come in address order.
  lemma {:induction false} AffectedInOrder(vs: seq<Vma>, r: Region, lo: nat)
    requires SortedFrom(vs, lo)
    ensures AscendingFrom(Affected(vs, r), lo)
    decreases |vs|
  {
    if vs != [] {
      var e := vs[0].region.End();
      AffectedInOrder(vs[1..], r, e);
      var rest := Affected(vs[1..], r);
      if Overlap(vs[0].region, r) {
        var i := Intersection(vs[0].region, r);
        assert AscendingFrom(rest, i.End());
        assert Affected(vs, r) == [i] + rest;
        assert Affected(vs, r)[1..] == rest;
      } else {
        assert AscendingFrom(rest, lo);
        assert Affected(vs, r) == rest;
      }
    }
  }

  /// No operation is issued exactly when nothing was mapped in the range.
  lemma {:induction false} AffectedNone(vs: seq<Vma>, r: Region)
    ensures Affected(vs, r) == [] <==> Free(vs, r)
    decreases |vs|
  {
    if vs != [] {
      AffectedNone(vs[1..], r);
    }
  }

  // ---------------------------------------------------------------------
  // Choosing where `mmap` maps

  /// Where the caller asks for the mapping.
  datatype AddressRequest =
    | Any                                      // anywhere below the mmap base
    | Hint(address: nat)                       // here if free, else anywhere
    | Fixed(address: nat, permitOverlap: bool) // exactly here

  /// [t, t + size) lies in [floor, limit) and no VMA overlaps it.
  predicate Fits(vs: seq<Vma>, size: nat, floor: nat, limit: nat, t: nat)
  {
    floor <= t && t + size <= limit && Free(vs, Region(t, size))
  }

  /// The highest free range of `size` bytes in [floor, limit). The search
  /// walks the sorted VMAs; the highest gap that fits wins.
  function HighestFit(vs: seq<Vma>, size: nat, floor: nat, limit: nat): Option<nat>
  {
    if vs == [] then
      (if floor + size <= limit then Some(limit - size) else None)
    else
      match HighestFit(vs[1..], size, vs[0].region.End(), limit)
      case Some(t) => Some(t)
      case None =>
        var top := Min(vs[0].region.start, limit);
        if floor + size <= top then Some(top - size) else None
  }

  /// A range ending at or below where a sorted list starts is free.
  lemma {:induction false} FreeBelow(vs: seq<Vma>, lo: nat, r: Region)
    requires SortedFrom(vs, lo) && r.End() <= lo
    ensures Free(vs, r)
    decreases |vs|
  {
    if vs != [] {
      FreeBelow(vs[1..], vs[0].region.End(), r);
    }
  }

  /// `HighestFit` finds a free range when there is one, and none lies
  /// higher.
  lemma {:induction false} HighestFitCorrect(vs: seq<Vma>, size: nat, floor: nat, limit: nat)
    requires SortedFrom(vs, floor) && size > 0
    ensures HighestFit(vs, size, floor, limit).Some? ==>
      var t := HighestFit(vs, size, floor, limit).value;
      Fits(vs, size, floor, limit, t) && forall u | t < u :: !Fits(vs, size, floor, limit, u)
    ensures HighestFit(vs, size, floor, limit).None? ==> forall u :: !Fits(vs, size, floor, limit, u)
    decreases |vs|
  {
    if vs != [] {
      var v := vs[0];
      var e := v.region.End();
      HighestFitCorrect(vs[1..], size, e, limit);
      forall u: nat | e <= u && Fits(vs, size, floor, limit, u)
        ensures Fits(vs[1..], size, e, limit, u)
      {
      }
      match HighestFit(vs[1..], size, e, limit)
      case Some(t) =>
        assert Fits(vs[1..], size, e, limit, t);
      case None =>
        var top := Min(v.region.start, limit);
        forall u: nat | u < e && top < u + size
          ensures !Fits(vs, size, floor, limit, u)
        {
          if u + size <= limit {
            assert Overlap(v.region, Region(u, size));
          }
        }
        if floor + size <= top {
          FreeBelow(vs[1..], e, Region(top - size, size));
        }
    }
  }

  /// The address `mmap` maps at, or why it fails: a zero size is invalid;
  /// `Any` takes the highest free range below `mmapBase`; `Hint` takes the
  /// hinted range when it is free; `Fixed` takes its address, and fails if
  /// something is mapped there unless overlapping is permitted.
  function ChooseAddress(vs: seq<Vma>, req: AddressRequest, size: nat, mmapBase: nat): Result<nat>
  {
    if size == 0 then Err(InvalidValue)
    else match req
      case Any => HighestBelow(vs, size, mmapBase)
      case Hint(h) => if Free(vs, Region(h, size)) then Ok(h) else HighestBelow(vs, size, mmapBase)
      case Fixed(addr, permit) =>
        if permit || Free(vs, Region(addr, size)) then Ok(addr) else Err(AlreadyExists)
  }

  function HighestBelow(vs: seq<Vma>, size: nat, mmapBase: nat): Result<nat>
  {
    match HighestFit(vs, size, 0, mmapBase)
    case Some(t) => Ok(t)
    case None => Err(OutOfMemory)
  }

  /// What `mmap` chooses: never a range in use unless a fixed request
  /// permits it; for `Any` (and a hint that is taken) the highest free
  /// range below the base, or out-of-memory when there is none.
  lemma ChooseAddressSpec(vs: seq<Vma>, req: AddressRequest, size: nat, mmapBase: nat)
    requires Sorted(vs) && size > 0
    ensures var r := ChooseAddress(vs, req, size, mmapBase);
      && (r.Ok? && !(req.Fixed? && req.permitOverlap) ==> Free(vs, Region(r.value, size)))
      && (req.Fixed? ==> r == if req.permitOverlap || Free(vs, Region(req.address, size))
                              then Ok(req.address) else Err(AlreadyExists))
      && (req.Hint? && Free(vs, Region(req.address, size)) ==> r == Ok(req.address))
      && (req.Any? || (req.Hint? && !Free(vs, Region(req.address, size))) ==>
            if r.Ok? then
              Fits(vs, size, 0, mmapBase, r.value) && forall u | r.value < u :: !Fits(vs, size, 0, mmapBase, u)
            else
              r.error == OutOfMemory && forall u :: !Fits(vs, size, 0, mmapBase, u))
  {
    HighestFitCorrect(vs, size, 0, mmapBase);
  }

  /// On an empty map, `Any` maps right below the base and issues no
  /// page-table operation.
  lemma MmapAnyEmpty(size: nat, mmapBase: nat, b: Backing, p: VmaPermissions)
    requires 0 < size <= mmapBase
    ensures ChooseAddress([], Any, size, mmapBase) == Ok(mmapBase - size)
    ensures Placed([], Vma(Region(mmapBase - size, size), b, p)) == [Vma(Region(mmapBase - size, size), b, p)]
    ensures Affected([], Region(mmapBase - size, size)) == []
  {
  }

  // ---------------------------------------------------------------------
  // The map and the page-table operations it issues

  /// An operation the map asks of the page tables.
  datatype PtOp =
    | UnmapRange(region: Region)
    | ProtectRange(region: Region, perms: PtePermissions)

  function UnmapOps(rs: seq<Region>): seq<PtOp>
  {
    seq(|rs|, i requires 0 <= i < |rs| => UnmapRange(rs[i]))
  }

  function ProtectOps(rs: seq<Region>, p: VmaPermissions): seq<PtOp>
  {
    seq(|rs|, i requires 0 <= i < |rs| => ProtectRange(rs[i], FromVma(p)))
  }

  /// `MemoryMap`: the VMAs of one process, kept sorted and fully merged,
  /// and the log of operations its address space was asked to perform.
  class MemoryMap {
    var vmas: seq<Vma>
    var opsLog: seq<PtOp>
    /// `MMAP_BASE`: `Any` requests map below this address.
    const mmapBase: nat

    ghost predicate Valid()
      reads this
    {
      Sorted(vmas) && Canonical(vmas)
    }

    constructor(mmapBase: nat)
      ensures Valid() && vmas == [] && opsLog == [] && this.mmapBase == mmapBase
    {
      vmas := [];
      opsLog := [];
      this.mmapBase := mmapBase;
    }

    /// `insert_and_merge`: adds a VMA over a free range; no page-table
    /// operation is needed.
    method InsertAndMerge(v: Vma)
      requires Valid() && v.region.size > 0 && Free(vmas, v.region)
      modifies this
      ensures Valid()
      ensures vmas == Inserted(old(vmas), v) && opsLog == old(opsLog)
    {
      InsertedSpec(vmas, v, 0);
      vmas := Inserted(vmas, v);
    }

    /// `mmap`: chooses the address, replaces what lay there and re-protects
    /// each overlapped piece with the new permissions.
    method Mmap(req: AddressRequest, size: nat, perms: VmaPermissions, backing: Backing) returns (r: Result<nat>)
      requires Valid()
      modifies this
      ensures Valid()
      ensures r == ChooseAddress(old(vmas), req, size, mmapBase)
      ensures r.Err? ==> vmas == old(vmas) && opsLog == old(opsLog)
      ensures r.Ok? ==>
        var region := Region(r.value, size);
        && vmas == Placed(old(vmas), Vma(region, backing, perms))
        && opsLog == old(opsLog) + ProtectOps(Affected(old(vmas), region), perms)
    {
      r := ChooseAddress(vmas, req, size, mmapBase);
      if r.Ok? {
        var region := Region(r.value, size);
        PlacedSpec(vmas, Vma(region, backing, perms), 0);
        opsLog := opsLog + ProtectOps(Affected(vmas, region), perms);
        vmas := Placed(vmas, Vma(region, backing, perms));
      }
    }

    /// `munmap`: unmaps the range, one page-table unmap per affected piece.
    method Munmap(region: Region)
      requires Valid()
      modifies this
      ensures Valid()
      ensures vmas == Unmapped(old(vmas), region)
      ensures opsLog == old(opsLog) + UnmapOps(Affected(old(vmas), region))
    {
      UnmappedSpec(vmas, region, 0);
      opsLog := opsLog + UnmapOps(Affected(vmas, region));
      vmas := Unmapped(vmas, region);
    }

    /// `mprotect`: changes the permissions of the mapped part of the range,
    /// one page-table protect per affected piece.
    method Mprotect(region: Region, perms: VmaPermissions)
      requires Valid()
      modifies this
      ensures Valid()
      ensures vmas == Protected(old(vmas), region, perms)
      ensures opsLog == old(opsLog) + ProtectOps(Affected(old(vmas), region), perms)
    {
      ProtectedSpec(vmas, region, perms, 0);
      opsLog := opsLog + ProtectOps(Affected(vmas, region), perms);
      vmas := Protected(vmas, region, perms);
    }
  }
}
