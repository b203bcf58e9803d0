/// The four-level arm64 translation tables of a user address space and the
/// walk that applies a modifier to every valid last-level (L3) descriptor
/// of a region.
///
/// Addresses inside the walk are page numbers (the virtual address shifted
/// right by 12). A table at level `l` has 512 entries, each covering
/// `Cov(l)` pages: one page at L3, 512 at L2, 512^2 at L1 and 512^3 at L0.
module PageWalk {
  import opened Common
  import opened Permissions
  import ProcVm
  import Slabs

  const ENTRIES: nat := 512

  /// Pages covered by one entry of a level-`level` table.
  function Cov(level: nat): (c: nat)
    requires level <= 3
    ensures c >= 1
    decreases 3 - level
  {
    if level == 3 then 1 else ENTRIES * Cov(level + 1)
  }

  /// Pages covered by a whole level-`level` table.
  function Span(level: nat): nat
    requires level <= 3
  {
    ENTRIES * Cov(level)
  }

  /// `pg_index`: the entry of a level-`level` table that page `p` falls in.
  function PgIndex(level: nat, p: nat): (i: nat)
    requires level <= 3
    ensures i < ENTRIES
  {
    (p / Cov(level)) % ENTRIES
  }

  /// A last-level descriptor. The descriptor encoding is not modelled;
  /// a swapped-out page is kept as a descriptor that is not valid.
  datatype L3Desc =
    | Invalid
    | Mapped(frame: nat, perms: PtePermissions)
    | Swapped(frame: nat, perms: PtePermissions)
  {
    predicate IsValid()
    {
      Mapped?
    }

    /// `mapped_address`: the physical page of a valid descriptor.
    function MappedAddress(): Option<nat>
    {
      if Mapped? then Some(frame) else None
    }
  }

  /// An entry of an L0, L1 or L2 table: nothing, the next-level table, or
  /// a valid block mapping that is not a table.
  datatype Entry = Empty | Next(table: Table) | Block(frame: nat)

  /// A translation table and the physical frame that holds it.
  datatype Table =
    | Inner(frame: nat, entries: seq<Entry>)
    | Leaf(frame: nat, descs: seq<L3Desc>)

  /// A table at level `level` with 512 entries, L3 tables at level 3 and
  /// tables of the next level below every table entry.
  predicate WF(t: Table, level: nat)
    decreases t
  {
    level <= 3 &&
    if level == 3 then t.Leaf? && |t.descs| == ENTRIES
    else
      t.Inner? && |t.entries| == ENTRIES &&
      forall i | 0 <= i < ENTRIES :: t.entries[i].Next? ==> WF(t.entries[i].table, level + 1)
  }

  /// Replacing the table below one entry by another well-formed table keeps
  /// the tables well-formed.
  lemma WFReplace(t: Table, level: nat, idx: nat, c: Table)
    requires level < 3 && WF(t, level) && idx < ENTRIES && WF(c, level + 1)
    ensures WF(t.(entries := t.entries[idx := Next(c)]), level)
  {
  }

  /// What the tables hold for one page.
  datatype Found =
    | Missing          // an intermediate entry is empty
    | AtBlock          // an intermediate entry is a block mapping
    | Desc(d: L3Desc)  // the page's L3 descriptor

  /// The translation of page `p`, following the entry `pg_index` picks at
  /// each level.
  function Find(t: Table, level: nat, p: nat): Found
    requires WF(t, level)
    decreases t
  {
    if t.Leaf? then Desc(t.descs[PgIndex(3, p)])
    else
      match t.entries[PgIndex(level, p)]
      case Empty => Missing
      case Block(_) => AtBlock
      case Next(c) => Find(c, level + 1, p)
  }

  /// `set_desc`: page `p`'s L3 descriptor replaced by `d`.
  function Set(t: Table, level: nat, p: nat, d: L3Desc): (u: Table)
    requires WF(t, level) && Find(t, level, p).Desc?
    ensures WF(u, level)
    decreases t
  {
    if t.Leaf? then t.(descs := t.descs[PgIndex(3, p) := d])
    else
      var i := PgIndex(level, p);
      t.(entries := t.entries[i := Next(Set(t.entries[i].table, level + 1, p, d))])
  }

  /// The modifier receives the page's virtual address and its descriptor and
  /// returns the descriptor to store.
  type Modifier = (nat, L3Desc) -> L3Desc

  /// One call of the modifier: the page's address and the descriptor it was
  /// given.
  datatype Visit = Visit(va: nat, desc: L3Desc)

  /// The tables after a walk, the modifier calls made, in order, and the
  /// error that stopped the walk, if any.
  datatype WalkResult = WalkResult(table: Table, visits: seq<Visit>, error: Option<Error>)

  /// The walk, page by page: the pages `first .. first + count - 1` in
  /// order; missing tables and invalid descriptors are skipped, a block
  /// mapping stops the walk with `NotL3Mapped`, and every valid descriptor
  /// is passed to the modifier and replaced by its result.
  function Sweep(t: Table, level: nat, first: nat, count: nat, f: Modifier): (w: WalkResult)
    requires WF(t, level)
    ensures WF(w.table, level)
    decreases count
  {
    if count == 0 then WalkResult(t, [], None)
    else
      match Find(t, level, first)
      case Missing => Sweep(t, level, first + 1, count - 1, f)
      case AtBlock => WalkResult(t, [], Some(NotL3Mapped))
      case Desc(d) =>
        if d.IsValid() then
          var va := first * Slabs.PAGE_SIZE;
          var rest := Sweep(Set(t, level, first, f(va, d)), level, first + 1, count - 1, f);
          WalkResult(rest.table, [Visit(va, d)] + rest.visits, rest.error)
        else Sweep(t, level, first + 1, count - 1, f)
  }

  // ---------------------------------------------------------------------
  // Index arithmetic

  /// Page `k * Span + i * Cov + q` (with `i < 512` and `q < Cov`) lies in
  /// entry `i` of the table covering block `k`.
  lemma EntryOf(level: nat, k: nat, i: nat, q: nat)
    requires level <= 3 && i < ENTRIES && q < Cov(level)
    ensures PgIndex(level, k * Span(level) + i * Cov(level) + q) == i
    ensures (k * Span(level) + i * Cov(level) + q) / Span(level) == k
    ensures (k * Span(level) + i * Cov(level) + q) / Cov(level) == k * ENTRIES + i
  {
    EntryArith(k, i, q, Cov(level));
  }

  /// The arithmetic behind `EntryOf`, for any entry size `c`.
  lemma EntryArith(k: nat, i: nat, q: nat, c: nat)
    requires i < ENTRIES && q < c
    ensures (k * (ENTRIES * c) + i * c + q) / c == k * ENTRIES + i
    ensures (k * (ENTRIES * c) + i * c + q) / c % ENTRIES == i
    ensures (k * (ENTRIES * c) + i * c + q) / (ENTRIES * c) == k
  {
    var a := k * ENTRIES + i;
    Regroup(k, i, c);
    DivAdd(a, c, q);
    DivAdd(k, ENTRIES, i);
    SlotWithin(i, c, ENTRIES);
    DivAdd(k, ENTRIES * c, i * c + q);
  }

  lemma Regroup(k: nat, i: nat, c: nat)
    ensures k * (ENTRIES * c) + i * c == (k * ENTRIES + i) * c
  {
    calc {
      k * (ENTRIES * c) + i * c;
      (k * ENTRIES) * c + i * c;
      (k * ENTRIES + i) * c;
    }
  }

  /// Every page lies in entry `PgIndex` of the table covering its block.
  lemma Decompose(level: nat, p: nat)
    requires level <= 3
    ensures var k := p / Span(level);
      k * Span(level) + PgIndex(level, p) * Cov(level) <= p < k * Span(level) + PgIndex(level, p) * Cov(level) + Cov(level)
    ensures p / Cov(level) == p / Span(level) * ENTRIES + PgIndex(level, p)
  {
    var c := Cov(level);
    var k := p / Span(level);
    var r := p % Span(level);
    DivBelow(r, c, ENTRIES);
    assert p == k * Span(level) + r / c * c + r % c;
    EntryOf(level, k, r / c, r % c);
  }

  lemma DivMono(x: nat, y: nat, d: nat)
    requires x <= y && d > 0
    ensures x / d <= y / d
  {
    if x / d > y / d {
      MulLe(y / d + 1, x / d, d);
    }
  }

  /// Pages that come in address order within one block come in entry order.
  lemma IndexMono(level: nat, p: nat, q: nat)
    requires level <= 3 && p <= q && p / Span(level) == q / Span(level)
    ensures PgIndex(level, p) <= PgIndex(level, q)
  {
    Decompose(level, p);
    Decompose(level, q);
    DivMono(p, q, Cov(level));
  }

  /// The pages `first .. first + count - 1` lie in one block of `Span(level)`
  /// pages, the memory a single table of that level covers.
  predicate SameBlock(level: nat, first: nat, count: nat)
    requires level <= 3
  {
    count == 0 || first / Span(level) == (first + count - 1) / Span(level)
  }

  lemma InBlock(level: nat, first: nat, count: nat, p: nat)
    requires level <= 3 && SameBlock(level, first, count) && first <= p < first + count
    ensures p / Span(level) == first / Span(level)
  {
    DivMono(first, p, Span(level));
    DivMono(p, first + count - 1, Span(level));
  }

  // ---------------------------------------------------------------------
  // Lookups after an update

  /// Setting one page's descriptor changes that page's translation and no
  /// other in the same block.
  lemma {:induction false} FindSet(t: Table, level: nat, p: nat, q: nat, d: L3Desc)
    requires WF(t, level) && Find(t, level, p).Desc?
    requires p / Span(level) == q / Span(level)
    ensures Find(Set(t, level, p, d), level, q) == if p == q then Desc(d) else Find(t, level, q)
    decreases t
  {
    if t.Leaf? {
      assert PgIndex(3, p) == p % ENTRIES && PgIndex(3, q) == q % ENTRIES;
    } else {
      var i := PgIndex(level, p);
      if PgIndex(level, q) == i {
        Decompose(level, p);
        Decompose(level, q);
        FindSet(t.entries[i].table, level + 1, p, q, d);
      }
    }
  }

  // ---------------------------------------------------------------------
  // Composition of sweeps

  /// `w` followed by a sweep of `count` more pages from `first`, unless `w`
  /// stopped with an error.
  function Continue(w: WalkResult, level: nat, first: nat, count: nat, f: Modifier): WalkResult
    requires WF(w.table, level)
  {
    if w.error.Some? then w
    else
      var rest := Sweep(w.table, level, first, count, f);
      WalkResult(rest.table, w.visits + rest.visits, rest.error)
  }

  /// Sweeping `n1 + n2` pages is sweeping `n1` pages and then `n2` more.
  lemma {:induction false} SweepSplit(t: Table, level: nat, first: nat, n1: nat, n2: nat, f: Modifier)
    requires WF(t, level)
    ensures Sweep(t, level, first, n1 + n2, f) == Continue(Sweep(t, level, first, n1, f), level, first + n1, n2, f)
    decreases n1, 1
  {
    if n1 == 0 {
      assert [] + Sweep(t, level, first, n2, f).visits == Sweep(t, level, first, n2, f).visits;
    } else {
      var found := Find(t, level, first);
      if found.Desc? && found.d.IsValid() {
        SplitValidStep(t, level, first, n1, n2, f);
      } else if found.Missing? || found.Desc? {
        assert Sweep(t, level, first, n1 + n2, f) == Sweep(t, level, first + 1, n1 - 1 + n2, f);
        assert Sweep(t, level, first, n1, f) == Sweep(t, level, first + 1, n1 - 1, f);
        SweepSplit(t, level, first + 1, n1 - 1, n2, f);
      }
    }
  }

  /// One step of `Sweep` at a first page holding a valid descriptor.
  lemma SweepValid(t: Table, level: nat, first: nat, count: nat, f: Modifier)
    requires WF(t, level) && count > 0
    requires Find(t, level, first).Desc? && Find(t, level, first).d.IsValid()
    ensures var d := Find(t, level, first).d;
      var va := first * Slabs.PAGE_SIZE;
      var rest := Sweep(Set(t, level, first, f(va, d)), level, first + 1, count - 1, f);
      Sweep(t, level, first, count, f) == WalkResult(rest.table, [Visit(va, d)] + rest.visits, rest.error)
  {
  }

  /// `SweepSplit` at a first page holding a valid descriptor.
  lemma {:induction false} SplitValidStep(t: Table, level: nat, first: nat, n1: nat, n2: nat, f: Modifier)
    requires WF(t, level) && n1 > 0
    requires Find(t, level, first).Desc? && Find(t, level, first).d.IsValid()
    ensures Sweep(t, level, first, n1 + n2, f) == Continue(Sweep(t, level, first, n1, f), level, first + n1, n2, f)
    decreases n1, 0
  {
    var d := Find(t, level, first).d;
    var va := first * Slabs.PAGE_SIZE;
    var u := Set(t, level, first, f(va, d));
    SweepSplit(u, level, first + 1, n1 - 1, n2, f);
    var s := Sweep(u, level, first + 1, n1 - 1, f);
    SweepValid(t, level, first, n1, f);
    SweepValid(t, level, first, n1 + n2, f);
    assert n1 + n2 - 1 == n1 - 1 + n2;
    if s.error.None? {
      var rest := Sweep(s.table, level, first + n1, n2, f);
      assert [Visit(va, d)] + (s.visits + rest.visits) == ([Visit(va, d)] + s.visits) + rest.visits;
    }
  }

  /// `SweepSplit` at an address: sweeping up to `end` is sweeping up to
  /// `mid` and then on to `end`.
  lemma SweepJoin(t: Table, level: nat, first: nat, mid: nat, end: nat, f: Modifier)
    requires WF(t, level) && first <= mid <= end
    ensures Sweep(t, level, first, end - first, f) == Continue(Sweep(t, level, first, mid - first, f), level, mid, end - mid, f)
  {
    var n1, n2 := mid - first, end - mid;
    SweepSplit(t, level, first, n1, n2, f);
    assert n1 + n2 == end - first && first + n1 == mid;
  }

  /// All of the pages `first .. first + count - 1` lie in entry `idx`.
  predicate InEntry(level: nat, idx: nat, first: nat, count: nat)
    requires level <= 3
  {
    forall p | first <= p < first + count :: PgIndex(level, p) == idx
  }

  /// A walk result of the table below entry `idx` seen from the table `t`.
  function Lift(t: Table, idx: nat, w: WalkResult): WalkResult
    requires t.Inner? && idx < |t.entries|
  {
    WalkResult(t.(entries := t.entries[idx := Next(w.table)]), w.visits, w.error)
  }

  /// Sweeping pages that all lie below one table entry is sweeping the
  /// next-level table that entry points to.
  lemma {:induction false} SweepChild(t: Table, level: nat, idx: nat, first: nat, count: nat, f: Modifier)
    requires level < 3 && WF(t, level) && idx < ENTRIES && t.entries[idx].Next?
    requires InEntry(level, idx, first, count)
    ensures Sweep(t, level, first, count, f) == Lift(t, idx, Sweep(t.entries[idx].table, level + 1, first, count, f))
    decreases count
  {
    var c := t.entries[idx].table;
    if count == 0 {
      assert t.entries[idx := Next(c)] == t.entries;
    } else {
      assert PgIndex(level, first) == idx;
      match Find(c, level + 1, first)
      case Missing =>
        SweepChild(t, level, idx, first + 1, count - 1, f);
      case AtBlock =>
        assert t.entries[idx := Next(c)] == t.entries;
      case Desc(d) =>
        if d.IsValid() {
          var u := Set(t, level, first, f(first * Slabs.PAGE_SIZE, d));
          SweepChild(u, level, idx, first + 1, count - 1, f);
          var e := Sweep(u.entries[idx].table, level + 1, first + 1, count - 1, f);
          assert u.entries[idx := Next(e.table)] == t.entries[idx := Next(e.table)];
        } else {
          SweepChild(t, level, idx, first + 1, count - 1, f);
        }
    }
  }

  /// Pages below an empty entry are all skipped.
  lemma {:induction false} SweepEmptyEntry(t: Table, level: nat, idx: nat, first: nat, count: nat, f: Modifier)
    requires level < 3 && WF(t, level) && idx < ENTRIES && t.entries[idx].Empty?
    requires InEntry(level, idx, first, count)
    ensures Sweep(t, level, first, count, f) == WalkResult(t, [], None)
    decreases count
  {
    if count > 0 {
      assert PgIndex(level, first) == idx;
      SweepEmptyEntry(t, level, idx, first + 1, count - 1, f);
    }
  }

  // ---------------------------------------------------------------------
  // The recursive walk

  /// The first page after those of entries before `idx` that the range
  /// `first .. first + count - 1` contains.
  function Covered(level: nat, first: nat, count: nat, idx: nat): nat
    requires level <= 3
  {
    Min(first + count, Max(first, first / Span(level) * Span(level) + idx * Cov(level)))
  }

  /// Entry `idx` of the table covering block `k` holds the pages
  /// `k * Span + idx * Cov .. k * Span + idx * Cov + Cov - 1`; a range within
  /// them lies in that entry and in one block of the next level.
  lemma EntryPages(level: nat, k: nat, idx: nat, lo: nat, hi: nat)
    requires level < 3 && idx < ENTRIES
    requires k * Span(level) + idx * Cov(level) <= lo < hi <= k * Span(level) + idx * Cov(level) + Cov(level)
    ensures InEntry(level, idx, lo, hi - lo) && SameBlock(level + 1, lo, hi - lo)
  {
    var entryVa := k * Span(level) + idx * Cov(level);
    forall p | lo <= p < hi ensures PgIndex(level, p) == idx {
      EntryOf(level, k, idx, p - entryVa);
    }
    assert Span(level + 1) == Cov(level);
    EntryOf(level, k, idx, lo - entryVa);
    EntryOf(level, k, idx, hi - 1 - entryVa);
  }

  /// The entries from the first page's to the last page's all meet the range.
  lemma EntryMeets(level: nat, first: nat, count: nat, idx: nat)
    requires level < 3 && count > 0 && SameBlock(level, first, count)
    requires PgIndex(level, first) <= idx <= PgIndex(level, first + count - 1)
    ensures var entryVa := first / Span(level) * Span(level) + idx * Cov(level);
      entryVa < first + count && first < entryVa + Cov(level)
  {
    Decompose(level, first);
    Decompose(level, first + count - 1);
    MulLe(PgIndex(level, first), idx, Cov(level));
    MulLe(idx, PgIndex(level, first + count - 1), Cov(level));
  }

  /// `sub_region`: the range clipped to entry `idx`, as the loop computes it.
  function SubRegion(level: nat, first: nat, count: nat, idx: nat): (r: (nat, nat))
    requires level < 3 && count > 0 && SameBlock(level, first, count)
    requires PgIndex(level, first) <= idx <= PgIndex(level, first + count - 1)
    ensures r.0 == Covered(level, first, count, idx) && r.1 == Covered(level, first, count, idx + 1)
    ensures first <= r.0 < r.1 <= first + count
    ensures InEntry(level, idx, r.0, r.1 - r.0) && SameBlock(level + 1, r.0, r.1 - r.0)
  {
    EntryRange(level, first, count, idx);
    var entryVa := first / Span(level) * Span(level) + idx * Cov(level);
    (Max(first, entryVa), Min(first + count, entryVa + Cov(level)))
  }

  /// The arithmetic of one iteration of the walk's loop: the range clipped to
  /// entry `idx` (`sub_region`) is non-empty, lies in that entry and in one
  /// block of the next level, and joins the pages before it to those after.
  lemma EntryRange(level: nat, first: nat, count: nat, idx: nat)
    requires level < 3 && count > 0 && SameBlock(level, first, count)
    requires PgIndex(level, first) <= idx <= PgIndex(level, first + count - 1)
    ensures var entryVa := first / Span(level) * Span(level) + idx * Cov(level);
      var lo := Max(first, entryVa);
      var hi := Min(first + count, entryVa + Cov(level));
      lo < hi && Covered(level, first, count, idx) == lo && Covered(level, first, count, idx + 1) == hi &&
      InEntry(level, idx, lo, hi - lo) && SameBlock(level + 1, lo, hi - lo)
  {
    var c := Cov(level);
    var k := first / Span(level);
    var entryVa := k * Span(level) + idx * c;
    EntryMeets(level, first, count, idx);
    assert (idx + 1) * c == idx * c + c;
    EntryPages(level, k, idx, Max(first, entryVa), Min(first + count, entryVa + c));
  }

  /// Before the first entry nothing is covered; after the last, everything.
  lemma CoveredEnds(level: nat, first: nat, count: nat)
    requires level <= 3 && count > 0 && SameBlock(level, first, count)
    ensures Covered(level, first, count, PgIndex(level, first)) == first
    ensures Covered(level, first, count, PgIndex(level, first + count - 1) + 1) == first + count
    ensures PgIndex(level, first) <= PgIndex(level, first + count - 1)
  {
    var last := first + count - 1;
    Decompose(level, first);
    Decompose(level, last);
    IndexMono(level, first, last);
    assert (PgIndex(level, last) + 1) * Cov(level) == PgIndex(level, last) * Cov(level) + Cov(level);
  }

  /// An empty entry adds nothing.
  lemma StepEmpty(t: Table, level: nat, first: nat, f: Modifier, idx: nat, table: Table, visits: seq<Visit>, lo: nat, hi: nat)
    requires level < 3 && WF(t, level) && WF(table, level) && idx < ENTRIES && table.entries[idx].Empty?
    requires first <= lo <= hi && InEntry(level, idx, lo, hi - lo)
    requires Sweep(t, level, first, lo - first, f) == WalkResult(table, visits, None)
    ensures Sweep(t, level, first, hi - first, f) == WalkResult(table, visits, None)
  {
    var done := Sweep(t, level, first, lo - first, f);
    assert Sweep(table, level, lo, hi - lo, f) == WalkResult(table, [], None) by {
      SweepEmptyEntry(table, level, idx, lo, hi - lo, f);
    }
    assert Continue(done, level, lo, hi - lo, f) == done by {
      assert visits + [] == visits;
    }
    SweepJoin(t, level, first, lo, hi, f);
  }

  /// A block entry stops the walk with `NotL3Mapped`.
  lemma StepBlock(t: Table, level: nat, first: nat, count: nat, f: Modifier, idx: nat, table: Table, visits: seq<Visit>, lo: nat, hi: nat)
    requires level < 3 && WF(t, level) && WF(table, level) && idx < ENTRIES && table.entries[idx].Block?
    requires first <= lo < hi <= first + count && InEntry(level, idx, lo, hi - lo)
    requires Sweep(t, level, first, lo - first, f) == WalkResult(table, visits, None)
    ensures WalkResult(table, visits, Some(NotL3Mapped)) == Sweep(t, level, first, count, f)
  {
    var done := Sweep(t, level, first, lo - first, f);
    var stop := WalkResult(table, visits, Some(NotL3Mapped));
    assert Sweep(table, level, lo, hi - lo, f) == WalkResult(table, [], Some(NotL3Mapped)) by {
      assert PgIndex(level, lo) == idx;
    }
    assert Continue(done, level, lo, hi - lo, f) == stop by {
      assert visits + [] == visits;
    }
    SweepJoin(t, level, first, lo, hi, f);
    SweepJoin(t, level, first, hi, first + count, f);
  }

  /// A table entry adds the walk of the next-level table over the part of
  /// the range it covers, `lo .. hi - 1`; an error there ends the walk.
  lemma StepNext(t: Table, level: nat, first: nat, count: nat, f: Modifier, idx: nat, table: Table, visits: seq<Visit>, lo: nat, hi: nat, sub: WalkResult)
    requires level < 3 && WF(t, level) && WF(table, level) && idx < ENTRIES && table.entries[idx].Next?
    requires first <= lo < hi <= first + count && InEntry(level, idx, lo, hi - lo)
    requires Sweep(t, level, first, lo - first, f) == WalkResult(table, visits, None)
    requires sub == Sweep(table.entries[idx].table, level + 1, lo, hi - lo, f)
    ensures var after := WalkResult(table.(entries := table.entries[idx := Next(sub.table)]), visits + sub.visits, sub.error);
      if sub.error.None? then after == Sweep(t, level, first, hi - first, f)
      else after == Sweep(t, level, first, count, f)
  {
    assert Sweep(table, level, lo, hi - lo, f) == Lift(table, idx, sub) by {
      SweepChild(table, level, idx, lo, hi - lo, f);
    }
    SweepJoin(t, level, first, lo, hi, f);
    if sub.error.Some? {
      SweepJoin(t, level, first, hi, first + count, f);
    }
  }

  /// The L3 walk: every page of the range in order; a valid descriptor is
  /// passed to the modifier and replaced by its result.
  method WalkL3(t: Table, first: nat, count: nat, f: Modifier) returns (w: WalkResult)
    requires WF(t, 3)
    ensures w == Sweep(t, 3, first, count, f)
  {
    var table := t;
    var visits: seq<Visit> := [];
    for p := first to first + count
      invariant WF(table, 3)
      invariant WalkResult(table, visits, None) == Sweep(t, 3, first, p - first, f)
    {
      SweepSplit(t, 3, first, p - first, 1, f);
      var va := p * Slabs.PAGE_SIZE;
      var desc := table.descs[PgIndex(3, p)];
      if desc.IsValid() {
        table := table.(descs := table.descs[PgIndex(3, p) := f(va, desc)]);
        visits := visits + [Visit(va, desc)];
      }
    }
    w := WalkResult(table, visits, None);
  }

  /// One level of the recursive walk over the pages `first .. first + count - 1`:
  /// the entries from the one holding the first page to the one holding the
  /// last, each handled by `WalkEntry`.
  method Walk(t: Table, level: nat, first: nat, count: nat, f: Modifier) returns (w: WalkResult)
    requires WF(t, level) && count > 0 && SameBlock(level, first, count)
    ensures w == Sweep(t, level, first, count, f)
    decreases 3 - level, 2
  {
    if level == 3 {
      w := WalkL3(t, first, count, f);
      return;
    }
    var startIdx := PgIndex(level, first);
    var endIdx := PgIndex(level, first + count - 1);
    CoveredEnds(level, first, count);
    var table := t;
    var visits: seq<Visit> := [];
    var idx := startIdx;
    ghost var done := first;
    while idx <= endIdx
      invariant startIdx <= idx <= endIdx + 1
      invariant done == Covered(level, first, count, idx) && first <= done
      invariant WF(table, level)
      invariant Sweep(t, level, first, done - first, f) == WalkResult(table, visits, None)
    {
      var error;
      table, visits, error, done := WalkEntry(t, level, first, count, f, idx, table, visits, done);
      if error.Some? {
        return WalkResult(table, visits, error);
      }
      idx := idx + 1;
    }
    w := WalkResult(table, visits, None);
  }

  /// One iteration of the walk's loop, for entry `idx`, after the pages
  /// before `done`: the range is clipped to the entry (`sub_region`); a table
  /// entry is walked over it, a block entry fails with `NotL3Mapped`, an
  /// empty entry is skipped.
  method WalkEntry(t: Table, level: nat, first: nat, count: nat, f: Modifier, idx: nat, table: Table, visits: seq<Visit>, ghost done: nat)
    returns (table': Table, visits': seq<Visit>, error: Option<Error>, ghost done': nat)
    requires level < 3 && WF(t, level) && WF(table, level) && count > 0 && SameBlock(level, first, count)
    requires PgIndex(level, first) <= idx <= PgIndex(level, first + count - 1)
    requires done == Covered(level, first, count, idx) && first <= done
    requires Sweep(t, level, first, done - first, f) == WalkResult(table, visits, None)
    ensures done' == Covered(level, first, count, idx + 1) && first <= done'
    ensures error.None? ==> WF(table', level) && Sweep(t, level, first, done' - first, f) == WalkResult(table', visits', None)
    ensures error.Some? ==> WalkResult(table', visits', error) == Sweep(t, level, first, count, f)
    decreases 3 - level, 1
  {
    var (lo, hi) := SubRegion(level, first, count, idx);
    done' := hi;
    if table.entries[idx].Next? {
      table', visits', error := WalkTableEntry(t, level, first, count, f, idx, table, visits, lo, hi);
    } else if table.entries[idx].Block? {
      StepBlock(t, level, first, count, f, idx, table, visits, lo, hi);
      table', visits', error := table, visits, Some(NotL3Mapped);
    } else {
      StepEmpty(t, level, first, f, idx, table, visits, lo, hi);
      table', visits', error := table, visits, None;
    }
  }

  /// The walk below a table entry, over the pages `lo .. hi - 1` it covers.
  method WalkTableEntry(t: Table, level: nat, first: nat, count: nat, f: Modifier, idx: nat, table: Table, visits: seq<Visit>, lo: nat, hi: nat)
    returns (table': Table, visits': seq<Visit>, error: Option<Error>)
    requires level < 3 && WF(t, level) && WF(table, level) && idx < ENTRIES && table.entries[idx].Next?
    requires first <= lo < hi <= first + count && InEntry(level, idx, lo, hi - lo) && SameBlock(level + 1, lo, hi - lo)
    requires Sweep(t, level, first, lo - first, f) == WalkResult(table, visits, None)
    ensures error.None? ==> WF(table', level) && Sweep(t, level, first, hi - first, f) == WalkResult(table', visits', None)
    ensures error.Some? ==> WalkResult(table', visits', error) == Sweep(t, level, first, count, f)
    decreases 3 - level, 0
  {
    var sub := Walk(table.entries[idx].table, level + 1, lo, hi - lo, f);
    StepNext(t, level, first, count, f, idx, table, visits, lo, hi, sub);
    WFReplace(table, level, idx, sub.table);
    table' := table.(entries := table.entries[idx := Next(sub.table)]);
    visits' := visits + sub.visits;
    error := sub.error;
  }

  // ---------------------------------------------------------------------
  // What a walk does

  lemma SameBlockTail(level: nat, first: nat, count: nat)
    requires level <= 3 && count > 0 && SameBlock(level, first, count)
    ensures SameBlock(level, first + 1, count - 1)
  {
    if count > 1 {
      InBlock(level, first, count, first + 1);
    }
  }

  /// Setting the first page's descriptor leaves every other page of its
  /// block as it was.
  lemma FindSetOthers(t: Table, level: nat, first: nat, d: L3Desc)
    requires WF(t, level) && Find(t, level, first).Desc?
    ensures forall p | p / Span(level) == first / Span(level) && p != first ::
      Find(Set(t, level, first, d), level, p) == Find(t, level, p)
  {
    forall p | p / Span(level) == first / Span(level) && p != first
      ensures Find(Set(t, level, first, d), level, p) == Find(t, level, p)
    {
      FindSet(t, level, first, p, d);
    }
  }

  /// Setting the first page's descriptor leaves the rest of the range as it
  /// was.
  lemma SetKeepsRest(t: Table, level: nat, first: nat, count: nat, d: L3Desc)
    requires WF(t, level) && Find(t, level, first).Desc? && SameBlock(level, first, count)
    ensures forall p | first < p < first + count :: Find(Set(t, level, first, d), level, p) == Find(t, level, p)
  {
    forall p | first < p < first + count
      ensures Find(Set(t, level, first, d), level, p) == Find(t, level, p)
    {
      InBlock(level, first, count, p);
      FindSet(t, level, first, p, d);
    }
  }

  /// No page of the range lies under a block mapping.
  predicate NoBlock(t: Table, level: nat, first: nat, count: nat)
    requires WF(t, level)
  {
    forall p | first <= p < first + count :: Find(t, level, p) != AtBlock
  }

  lemma NoBlockTail(t: Table, u: Table, level: nat, first: nat, count: nat)
    requires WF(t, level) && WF(u, level) && count > 0 && Find(t, level, first) != AtBlock
    requires forall p | first < p < first + count :: Find(u, level, p) == Find(t, level, p)
    ensures NoBlock(t, level, first, count) == NoBlock(u, level, first + 1, count - 1)
  {
  }

  /// A walk fails exactly when a page of the range lies under a block
  /// mapping, and then with `NotL3Mapped`.
  lemma {:induction false} SweepBlocked(t: Table, level: nat, first: nat, count: nat, f: Modifier)
    requires WF(t, level) && SameBlock(level, first, count)
    ensures Sweep(t, level, first, count, f).error == if NoBlock(t, level, first, count) then None else Some(NotL3Mapped)
    decreases count
  {
    if count > 0 {
      SameBlockTail(level, first, count);
      match Find(t, level, first)
      case Missing =>
        SweepBlocked(t, level, first + 1, count - 1, f);
        NoBlockTail(t, t, level, first, count);
      case AtBlock =>
        assert Find(t, level, first) == AtBlock;
      case Desc(d) =>
        if d.IsValid() {
          var u := Set(t, level, first, f(first * Slabs.PAGE_SIZE, d));
          SetKeepsRest(t, level, first, count, f(first * Slabs.PAGE_SIZE, d));
          SweepBlocked(u, level, first + 1, count - 1, f);
          NoBlockTail(t, u, level, first, count);
        } else {
          SweepBlocked(t, level, first + 1, count - 1, f);
          NoBlockTail(t, t, level, first, count);
        }
    }
  }

  /// Visit `v` is a call of the modifier for a page of the range with the
  /// valid descriptor the tables held for it.
  predicate Visited(t: Table, level: nat, first: nat, count: nat, v: Visit)
    requires WF(t, level)
  {
    v.va % Slabs.PAGE_SIZE == 0 && first <= v.va / Slabs.PAGE_SIZE < first + count &&
    Find(t, level, v.va / Slabs.PAGE_SIZE) == Desc(v.desc) && v.desc.IsValid()
  }

  /// Visits in strictly increasing address order, so no page twice.
  predicate Ascending(vs: seq<Visit>)
  {
    forall j, k | 0 <= j < k < |vs| :: vs[j].va < vs[k].va
  }

  lemma PageOf(p: nat)
    ensures (p * Slabs.PAGE_SIZE) / Slabs.PAGE_SIZE == p && (p * Slabs.PAGE_SIZE) % Slabs.PAGE_SIZE == 0
  {
    DivAdd(p, Slabs.PAGE_SIZE, 0);
  }

  lemma AfterPage(va: nat, p: nat)
    requires va % Slabs.PAGE_SIZE == 0 && va / Slabs.PAGE_SIZE > p
    ensures va > p * Slabs.PAGE_SIZE
  {
  }

  /// A visit of the first page followed by visits of the rest of the range
  /// (as seen by tables that agree with `t` there) are visits of the range.
  lemma ConsVisits(t: Table, u: Table, level: nat, first: nat, count: nat, d: L3Desc, rest: seq<Visit>)
    requires WF(t, level) && WF(u, level) && count > 0
    requires Find(t, level, first) == Desc(d) && d.IsValid()
    requires forall p | first < p < first + count :: Find(u, level, p) == Find(t, level, p)
    requires Ascending(rest) && forall j | 0 <= j < |rest| :: Visited(u, level, first + 1, count - 1, rest[j])
    ensures var vs := [Visit(first * Slabs.PAGE_SIZE, d)] + rest;
      Ascending(vs) && forall j | 0 <= j < |vs| :: Visited(t, level, first, count, vs[j])
  {
    var vs := [Visit(first * Slabs.PAGE_SIZE, d)] + rest;
    PageOf(first);
    forall j | 1 <= j < |vs|
      ensures Visited(t, level, first, count, vs[j]) && first * Slabs.PAGE_SIZE < vs[j].va
    {
      assert Visited(u, level, first + 1, count - 1, rest[j - 1]);
      AfterPage(vs[j].va, first);
    }
  }

  /// The modifier is called only for valid descriptors of the range, with
  /// the descriptor the tables held before the walk, once per page and in
  /// address order.
  lemma {:induction false} SweepVisitsSound(t: Table, level: nat, first: nat, count: nat, f: Modifier)
    requires WF(t, level) && SameBlock(level, first, count)
    ensures var w := Sweep(t, level, first, count, f);
      Ascending(w.visits) && forall j | 0 <= j < |w.visits| :: Visited(t, level, first, count, w.visits[j])
    decreases count
  {
    if count > 0 {
      SameBlockTail(level, first, count);
      match Find(t, level, first)
      case Missing =>
        SweepVisitsSound(t, level, first + 1, count - 1, f);
      case AtBlock =>
      case Desc(d) =>
        if d.IsValid() {
          var va := first * Slabs.PAGE_SIZE;
          var u := Set(t, level, first, f(va, d));
          SetKeepsRest(t, level, first, count, f(va, d));
          SweepVisitsSound(u, level, first + 1, count - 1, f);
          ConsVisits(t, u, level, first, count, d, Sweep(u, level, first + 1, count - 1, f).visits);
        } else {
          SweepVisitsSound(t, level, first + 1, count - 1, f);
        }
    }
  }

  /// When the walk succeeds the modifier has been called for every valid
  /// descriptor of the range.
  lemma {:induction false} SweepVisitsComplete(t: Table, level: nat, first: nat, count: nat, f: Modifier)
    requires WF(t, level) && SameBlock(level, first, count)
    ensures var w := Sweep(t, level, first, count, f);
      w.error.None? ==> forall p | first <= p < first + count && Find(t, level, p).Desc? && Find(t, level, p).d.IsValid() ::
        Visit(p * Slabs.PAGE_SIZE, Find(t, level, p).d) in w.visits
    decreases count
  {
    if count > 0 {
      SameBlockTail(level, first, count);
      match Find(t, level, first)
      case Missing =>
        SweepVisitsComplete(t, level, first + 1, count - 1, f);
      case AtBlock =>
      case Desc(d) =>
        if d.IsValid() {
          var va := first * Slabs.PAGE_SIZE;
          var u := Set(t, level, first, f(va, d));
          SetKeepsRest(t, level, first, count, f(va, d));
          SweepVisitsComplete(u, level, first + 1, count - 1, f);
        } else {
          SweepVisitsComplete(t, level, first + 1, count - 1, f);
        }
    }
  }

  /// The valid descriptors of a range, page by page in address order, as
  /// visits: what the modifier is called with, told without the walk.
  function ValidVisits(t: Table, level: nat, first: nat, count: nat): seq<Visit>
    requires WF(t, level)
    decreases count
  {
    if count == 0 then [] else PageVisit(t, level, first) + ValidVisits(t, level, first + 1, count - 1)
  }

  function PageVisit(t: Table, level: nat, p: nat): seq<Visit>
    requires WF(t, level)
  {
    match Find(t, level, p)
    case Desc(d) => if d.IsValid() then [Visit(p * Slabs.PAGE_SIZE, d)] else []
    case _ => []
  }

  lemma {:induction false} ValidVisitsAgree(t: Table, u: Table, level: nat, first: nat, count: nat)
    requires WF(t, level) && WF(u, level)
    requires forall p | first <= p < first + count :: Find(u, level, p) == Find(t, level, p)
    ensures ValidVisits(u, level, first, count) == ValidVisits(t, level, first, count)
    decreases count
  {
    if count > 0 {
      ValidVisitsAgree(t, u, level, first + 1, count - 1);
    }
  }

  /// A walk that succeeds calls the modifier exactly for the valid
  /// descriptors of the range, in address order.
  lemma {:induction false} SweepVisitsExact(t: Table, level: nat, first: nat, count: nat, f: Modifier)
    requires WF(t, level) && SameBlock(level, first, count)
    ensures var w := Sweep(t, level, first, count, f);
      w.error.None? ==> w.visits == ValidVisits(t, level, first, count)
    decreases count, 2
  {
    if count > 0 {
      SameBlockTail(level, first, count);
      var found := Find(t, level, first);
      if found.Desc? && found.d.IsValid() {
        ExactValidStep(t, level, first, count, f);
      } else if found.Missing? || found.Desc? {
        assert Sweep(t, level, first, count, f) == Sweep(t, level, first + 1, count - 1, f);
        assert ValidVisits(t, level, first, count) == [] + ValidVisits(t, level, first + 1, count - 1);
        SweepVisitsExact(t, level, first + 1, count - 1, f);
      }
    }
  }

  /// `SweepVisitsExact` at a first page holding a valid descriptor.
  lemma {:induction false} ExactValidStep(t: Table, level: nat, first: nat, count: nat, f: Modifier)
    requires WF(t, level) && SameBlock(level, first, count) && count > 0
    requires Find(t, level, first).Desc? && Find(t, level, first).d.IsValid()
    ensures var w := Sweep(t, level, first, count, f);
      w.error.None? ==> w.visits == ValidVisits(t, level, first, count)
    decreases count, 1
  {
    var d := Find(t, level, first).d;
    var va := first * Slabs.PAGE_SIZE;
    var u := Set(t, level, first, f(va, d));
    var rest := Sweep(u, level, first + 1, count - 1, f);
    SweepValid(t, level, first, count, f);
    ExactTail(t, level, first, count, f);
    assert ValidVisits(t, level, first, count) == [Visit(va, d)] + ValidVisits(t, level, first + 1, count - 1) by {
      assert PageVisit(t, level, first) == [Visit(va, d)];
    }
  }

  /// The rest of a walk past a valid first page, which runs on the tables
  /// with that page's descriptor replaced, still visits exactly the valid
  /// descriptors of the original tables.
  lemma {:induction false} ExactTail(t: Table, level: nat, first: nat, count: nat, f: Modifier)
    requires WF(t, level) && SameBlock(level, first, count) && count > 0
    requires Find(t, level, first).Desc? && Find(t, level, first).d.IsValid()
    ensures var d := Find(t, level, first).d;
      var rest := Sweep(Set(t, level, first, f(first * Slabs.PAGE_SIZE, d)), level, first + 1, count - 1, f);
      rest.error.None? ==> rest.visits == ValidVisits(t, level, first + 1, count - 1)
    decreases count, 0
  {
    var d := Find(t, level, first).d;
    var u := Set(t, level, first, f(first * Slabs.PAGE_SIZE, d));
    SameBlockTail(level, first, count);
    SetKeepsRest(t, level, first, count, f(first * Slabs.PAGE_SIZE, d));
    SweepVisitsExact(u, level, first + 1, count - 1, f);
    ValidVisitsAgree(t, u, level, first + 1, count - 1);
  }

  /// What the tables hold for page `p` once the modifier has been applied to
  /// it if it is valid.
  function Applied(t: Table, level: nat, p: nat, f: Modifier): Found
    requires WF(t, level)
  {
    match Find(t, level, p)
    case Desc(d) => if d.IsValid() then Desc(f(p * Slabs.PAGE_SIZE, d)) else Desc(d)
    case other => other
  }

  /// A walk leaves the pages of the block outside the range alone.
  lemma {:induction false} SweepOutside(t: Table, level: nat, first: nat, count: nat, f: Modifier)
    requires WF(t, level) && SameBlock(level, first, count)
    ensures var w := Sweep(t, level, first, count, f);
      forall p | p / Span(level) == first / Span(level) && !(first <= p < first + count) ::
        Find(w.table, level, p) == Find(t, level, p)
    decreases count
  {
    if count > 0 {
      SameBlockTail(level, first, count);
      if count > 1 {
        InBlock(level, first, count, first + 1);
      }
      match Find(t, level, first)
      case Missing =>
        SweepOutside(t, level, first + 1, count - 1, f);
      case AtBlock =>
      case Desc(d) =>
        if d.IsValid() {
          var va := first * Slabs.PAGE_SIZE;
          FindSetOthers(t, level, first, f(va, d));
          SweepOutside(Set(t, level, first, f(va, d)), level, first + 1, count - 1, f);
        } else {
          SweepOutside(t, level, first + 1, count - 1, f);
        }
    }
  }

  /// The first page and then the rest of the range hold what the modifier
  /// made of them.
  lemma AppliedStep(t: Table, u: Table, table: Table, level: nat, first: nat, count: nat, f: Modifier)
    requires WF(t, level) && WF(u, level) && WF(table, level)
    requires Find(table, level, first) == Applied(t, level, first, f)
    requires forall p | first < p < first + count :: Find(u, level, p) == Find(t, level, p)
    requires forall p | first + 1 <= p < first + count :: Find(table, level, p) == Applied(u, level, p, f)
    ensures forall p | first <= p < first + count :: Find(table, level, p) == Applied(t, level, p, f)
  {
    forall p | first < p < first + count
      ensures Find(table, level, p) == Applied(t, level, p, f)
    {
      assert Applied(u, level, p, f) == Applied(t, level, p, f);
    }
  }

  /// The first step of a walk over a page that is not under a block: the
  /// tables it continues with hold the first page as the modifier made it
  /// and every other page of the range unchanged.
  lemma FirstStep(t: Table, level: nat, first: nat, count: nat, f: Modifier) returns (u: Table)
    requires WF(t, level) && SameBlock(level, first, count) && count > 0 && Find(t, level, first) != AtBlock
    ensures WF(u, level) && Find(u, level, first) == Applied(t, level, first, f)
    ensures forall p | first < p < first + count :: Find(u, level, p) == Find(t, level, p)
    ensures Sweep(t, level, first, count, f).table == Sweep(u, level, first + 1, count - 1, f).table
    ensures Sweep(t, level, first, count, f).error == Sweep(u, level, first + 1, count - 1, f).error
  {
    u := t;
    if Find(t, level, first).Desc? && Find(t, level, first).d.IsValid() {
      var d := Find(t, level, first).d;
      var va := first * Slabs.PAGE_SIZE;
      u := Set(t, level, first, f(va, d));
      SetKeepsRest(t, level, first, count, f(va, d));
      FindSet(t, level, first, first, f(va, d));
      SweepValid(t, level, first, count, f);
    }
  }

  /// When a walk succeeds each page of the range holds what the modifier
  /// made of its descriptor.
  lemma {:induction false} SweepApplied(t: Table, level: nat, first: nat, count: nat, f: Modifier)
    requires WF(t, level) && SameBlock(level, first, count)
    ensures var w := Sweep(t, level, first, count, f);
      w.error.None? ==> forall p | first <= p < first + count :: Find(w.table, level, p) == Applied(t, level, p, f)
    decreases count
  {
    if count > 0 && Find(t, level, first) != AtBlock {
      SameBlockTail(level, first, count);
      var u := FirstStep(t, level, first, count, f);
      var w := Sweep(u, level, first + 1, count - 1, f);
      if w.error.None? {
        SweepApplied(u, level, first + 1, count - 1, f);
        if count > 1 {
          InBlock(level, first, count, first + 1);
          SweepOutside(u, level, first + 1, count - 1, f);
        }
        AppliedStep(t, u, w.table, level, first, count, f);
      }
    }
  }

  // ---------------------------------------------------------------------
  // Entry points

  /// Both the start and the size of the region are multiples of the page
  /// size.
  predicate PageAligned(region: ProcVm.Region)
  {
    region.start % Slabs.PAGE_SIZE == 0 && region.size % Slabs.PAGE_SIZE == 0
  }

  /// The regions a walk from the L0 table handles: an aligned region must
  /// not leave the 2^48-byte block the L0 table translates.
  predicate InOneBlock(region: ProcVm.Region)
  {
    PageAligned(region) ==> SameBlock(0, region.start / Slabs.PAGE_SIZE, region.size / Slabs.PAGE_SIZE)
  }

  /// What `walk_and_modify_region` does to the tables: an unaligned region
  /// fails with `VirtNotAligned` and changes nothing; an aligned one is
  /// swept page by page.
  function RegionWalk(root: Table, region: ProcVm.Region, f: Modifier): (w: WalkResult)
    requires WF(root, 0) && InOneBlock(region)
    ensures WF(w.table, 0)
  {
    if !PageAligned(region) then WalkResult(root, [], Some(VirtNotAligned))
    else Sweep(root, 0, region.start / Slabs.PAGE_SIZE, region.size / Slabs.PAGE_SIZE, f)
  }

  /// `walk_and_modify_region`: an unaligned region fails, an empty one is
  /// left alone, any other is walked from the L0 table.
  method WalkAndModifyRegion(root: Table, region: ProcVm.Region, f: Modifier) returns (w: WalkResult)
    requires WF(root, 0) && InOneBlock(region)
    ensures w == RegionWalk(root, region, f)
  {
    if !PageAligned(region) {
      return WalkResult(root, [], Some(VirtNotAligned));
    }
    if region.size == 0 {
      return WalkResult(root, [], None);
    }
    w := Walk(root, 0, region.start / Slabs.PAGE_SIZE, region.size / Slabs.PAGE_SIZE, f);
  }

  /// Everything a region walk promises at once: it fails on an unaligned
  /// region (touching nothing) and on a block mapping; when it succeeds the
  /// modifier has been called exactly for the valid descriptors, in order,
  /// and its results stored; the rest of the L0 block is untouched.
  lemma RegionWalkEffect(root: Table, region: ProcVm.Region, f: Modifier)
    requires WF(root, 0) && InOneBlock(region)
    ensures var w := RegionWalk(root, region, f);
      var first, count := region.start / Slabs.PAGE_SIZE, region.size / Slabs.PAGE_SIZE;
      && w.error == (if !PageAligned(region) then Some(VirtNotAligned)
                     else if NoBlock(root, 0, first, count) then None else Some(NotL3Mapped))
      && (!PageAligned(region) ==> w.table == root && w.visits == [])
      && (w.error.None? ==> w.visits == ValidVisits(root, 0, first, count))
      && (w.error.None? ==> forall p | first <= p < first + count :: Find(w.table, 0, p) == Applied(root, 0, p, f))
      && (PageAligned(region) ==>
            forall p | p / Span(0) == first / Span(0) && !(first <= p < first + count) :: Find(w.table, 0, p) == Find(root, 0, p))
  {
    if PageAligned(region) {
      var first, count := region.start / Slabs.PAGE_SIZE, region.size / Slabs.PAGE_SIZE;
      SweepBlocked(root, 0, first, count, f);
      SweepVisitsExact(root, 0, first, count, f);
      SweepApplied(root, 0, first, count, f);
      SweepOutside(root, 0, first, count, f);
    }
  }

  /// `get_pte`: walks the one page holding `va` with a modifier that records
  /// the descriptor and stores it back unchanged. The result is the page's
  /// descriptor when it is valid, nothing when it is not or no table covers
  /// the page, and `NotL3Mapped` under a block mapping.
  method GetPte(root: Table, va: nat) returns (r: Result<Option<L3Desc>>)
    requires WF(root, 0)
    ensures Find(root, 0, va / Slabs.PAGE_SIZE) == AtBlock ==> r == Err(NotL3Mapped)
    ensures Find(root, 0, va / Slabs.PAGE_SIZE) == Missing ==> r == Ok(None)
    ensures Find(root, 0, va / Slabs.PAGE_SIZE).Desc? ==>
      var d := Find(root, 0, va / Slabs.PAGE_SIZE).d;
      r == Ok(if d.IsValid() then Some(d) else None)
  {
    var page := va / Slabs.PAGE_SIZE * Slabs.PAGE_SIZE;
    assert page / Slabs.PAGE_SIZE == va / Slabs.PAGE_SIZE;
    var w := WalkAndModifyRegion(root, ProcVm.Region(page, Slabs.PAGE_SIZE), (x: nat, pte: L3Desc) => pte);
    if w.error.Some? {
      return Err(w.error.value);
    }
    var descriptor: Option<L3Desc> := None;
    if |w.visits| > 0 {
      descriptor := Some(w.visits[|w.visits| - 1].desc);
    }
    r := Ok(descriptor);
  }
}
