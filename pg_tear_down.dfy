/// Tearing down a user address space: every page a last-level descriptor
/// maps, then every translation table, is handed to a deallocator. The
/// observable behaviour is the sequence of deallocator calls.
module PageTearDown {
  import opened Common
  import opened PageWalk

  /// The frames the first `n` descriptors of an L3 table map, in index order.
  function MappedFrames(descs: seq<L3Desc>, n: nat): seq<nat>
    requires n <= |descs|
  {
    if n == 0 then []
    else
      MappedFrames(descs, n - 1) +
      match descs[n - 1].MappedAddress()
      case Some(a) => [a]
      case None => []
  }

  /// The deallocator calls of tearing down table `t` and everything below it,
  /// except `t`'s own frame: the mapped pages of an L3 table in index order;
  /// for a higher table, entry by entry, each next-level table torn down
  /// first and then its frame freed.
  function Freed(t: Table): seq<nat>
    decreases t, 2
  {
    if t.Leaf? then MappedFrames(t.descs, |t.descs|) else PrefixFreed(t, |t.entries|)
  }

  /// The calls for entries `0 .. n - 1` of an L0, L1 or L2 table.
  function PrefixFreed(t: Table, n: nat): seq<nat>
    requires t.Inner? && n <= |t.entries|
    decreases t, 1, n
  {
    if n == 0 then [] else PrefixFreed(t, n - 1) + EntryFreed(t, n - 1)
  }

  /// The calls for entry `i`: the table below it, then its frame.
  function EntryFreed(t: Table, i: nat): seq<nat>
    requires t.Inner? && i < |t.entries|
    decreases t, 0
  {
    match t.entries[i]
    case Next(c) => Freed(c) + [c.frame]
    case _ => []
  }

  /// The frames of `t` and of every table below it.
  function Tables(t: Table): multiset<nat>
    decreases t, 2
  {
    multiset{t.frame} + if t.Leaf? then multiset{} else PrefixTables(t, |t.entries|)
  }

  function PrefixTables(t: Table, n: nat): multiset<nat>
    requires t.Inner? && n <= |t.entries|
    decreases t, 1, n
  {
    if n == 0 then multiset{} else PrefixTables(t, n - 1) + EntryTables(t, n - 1)
  }

  function EntryTables(t: Table, i: nat): multiset<nat>
    requires t.Inner? && i < |t.entries|
    decreases t, 0
  {
    match t.entries[i]
    case Next(c) => Tables(c)
    case _ => multiset{}
  }

  /// The pages mapped by the L3 tables at or below `t`, once per descriptor.
  function Payload(t: Table): multiset<nat>
    decreases t, 2
  {
    if t.Leaf? then multiset(MappedFrames(t.descs, |t.descs|)) else PrefixPayload(t, |t.entries|)
  }

  function PrefixPayload(t: Table, n: nat): multiset<nat>
    requires t.Inner? && n <= |t.entries|
    decreases t, 1, n
  {
    if n == 0 then multiset{} else PrefixPayload(t, n - 1) + EntryPayload(t, n - 1)
  }

  function EntryPayload(t: Table, i: nat): multiset<nat>
    requires t.Inner? && i < |t.entries|
    decreases t, 0
  {
    match t.entries[i]
    case Next(c) => Payload(c)
    case _ => multiset{}
  }

  /// `tear_down_address_space`: the hierarchy below the root, then the root.
  function AddressSpaceFreed(root: Table): seq<nat>
  {
    Freed(root) + [root.frame]
  }

  // ---------------------------------------------------------------------
  // The teardown

  /// The L3 teardown: each descriptor in index order; a mapped page is
  /// handed to the deallocator.
  method TearDownLeaf(t: Table) returns (freed: seq<nat>)
    requires WF(t, 3)
    ensures freed == Freed(t)
  {
    freed := [];
    for idx := 0 to ENTRIES
      invariant freed == MappedFrames(t.descs, idx)
    {
      match t.descs[idx].MappedAddress() {
        case Some(addr) => freed := freed + [addr];
        case None =>
      }
    }
  }

  /// The scan in `tear_down`'s loop: the first entry at or after `cursor`
  /// that points to a next-level table.
  method NextTable(t: Table, level: nat, cursor: nat) returns (found: Option<nat>)
    requires WF(t, level) && t.Inner? && cursor <= ENTRIES
    ensures found.Some? ==> cursor <= found.value < ENTRIES && t.entries[found.value].Next?
    ensures found.Some? ==> forall j | cursor <= j < found.value :: !t.entries[j].Next?
    ensures found.None? ==> forall j | cursor <= j < ENTRIES :: !t.entries[j].Next?
  {
    for i := cursor to ENTRIES
      invariant forall j | cursor <= j < i :: !t.entries[j].Next?
    {
      if t.entries[i].Next? {
        return Some(i);
      }
    }
    return None;
  }

  /// Entries that point to no table add no calls.
  lemma {:induction false} SkipNonTables(t: Table, lo: nat, hi: nat)
    requires t.Inner? && lo <= hi <= |t.entries|
    requires forall j | lo <= j < hi :: !t.entries[j].Next?
    ensures PrefixFreed(t, hi) == PrefixFreed(t, lo)
    decreases hi
  {
    if lo < hi {
      SkipNonTables(t, lo, hi - 1);
      assert PrefixFreed(t, hi - 1) + [] == PrefixFreed(t, hi - 1);
    }
  }

  /// `RecursiveTeardownWalker::tear_down`: at L3 the mapped pages; above,
  /// a cursor loop that finds the next entry pointing to a table, tears that
  /// table down, frees its frame and moves the cursor past the entry.
  method TearDown(t: Table, level: nat) returns (freed: seq<nat>)
    requires WF(t, level)
    ensures freed == Freed(t)
    decreases t
  {
    if t.Leaf? {
      freed := TearDownLeaf(t);
      return;
    }
    freed := [];
    var cursor := 0;
    while true
      invariant cursor <= ENTRIES && freed == PrefixFreed(t, cursor)
      decreases ENTRIES - cursor
    {
      var next := NextTable(t, level, cursor);
      match next {
        case Some(foundIdx) =>
          var child := t.entries[foundIdx].table;
          var below := TearDown(child, level + 1);
          SkipNonTables(t, cursor, foundIdx);
          freed := freed + (below + [child.frame]);
          cursor := foundIdx + 1;
        case None =>
          SkipNonTables(t, cursor, ENTRIES);
          break;
      }
    }
  }

  /// `tear_down_address_space`: the hierarchy below the L0 table, then the
  /// L0 table itself.
  method TearDownAddressSpace(root: Table) returns (freed: seq<nat>)
    requires WF(root, 0)
    ensures freed == AddressSpaceFreed(root)
  {
    freed := TearDown(root, 0);
    freed := freed + [root.frame];
  }

  // ---------------------------------------------------------------------
  // What the teardown frees

  /// Every table frame and every mapped page below `t` is freed, each as
  /// many times as it occurs in the hierarchy, and nothing else is.
  lemma {:induction false} FreedContents(t: Table)
    ensures multiset(Freed(t)) + multiset{t.frame} == Tables(t) + Payload(t)
    decreases t, 2
  {
    if t.Inner? {
      PrefixContents(t, |t.entries|);
    }
  }

  lemma {:induction false} PrefixContents(t: Table, n: nat)
    requires t.Inner? && n <= |t.entries|
    ensures multiset(PrefixFreed(t, n)) == PrefixTables(t, n) + PrefixPayload(t, n)
    decreases t, 1, n
  {
    if n > 0 {
      PrefixContents(t, n - 1);
      EntryContents(t, n - 1);
      Combine(PrefixFreed(t, n - 1), EntryFreed(t, n - 1),
              PrefixTables(t, n - 1), EntryTables(t, n - 1),
              PrefixPayload(t, n - 1), EntryPayload(t, n - 1));
    }
  }

  /// Counting the frames of two consecutive runs of calls.
  lemma Combine(before: seq<nat>, entry: seq<nat>, tables: multiset<nat>, entryTables: multiset<nat>,
                payload: multiset<nat>, entryPayload: multiset<nat>)
    requires multiset(before) == tables + payload
    requires multiset(entry) == entryTables + entryPayload
    ensures multiset(before + entry) == (tables + entryTables) + (payload + entryPayload)
  {
  }

  lemma {:induction false} EntryContents(t: Table, i: nat)
    requires t.Inner? && i < |t.entries|
    ensures multiset(EntryFreed(t, i)) == EntryTables(t, i) + EntryPayload(t, i)
    decreases t, 0
  {
    if t.entries[i].Next? {
      FreedContents(t.entries[i].table);
    }
  }

  /// The deallocator calls of a whole address space are exactly its table
  /// frames and its mapped pages, so their number is the sum of the two.
  lemma AddressSpaceContents(root: Table)
    ensures multiset(AddressSpaceFreed(root)) == Tables(root) + Payload(root)
    ensures |AddressSpaceFreed(root)| == |Tables(root)| + |Payload(root)|
  {
    FreedContents(root);
    assert multiset(AddressSpaceFreed(root)) == multiset(Freed(root)) + multiset{root.frame};
    assert |multiset(AddressSpaceFreed(root))| == |AddressSpaceFreed(root)|;
  }

  /// When no frame occurs twice in the hierarchy, no frame is freed twice.
  lemma NoDoubleFree(root: Table)
    requires forall x | x in Tables(root) + Payload(root) :: (Tables(root) + Payload(root))[x] == 1
    ensures forall i, j | 0 <= i < j < |AddressSpaceFreed(root)| :: AddressSpaceFreed(root)[i] != AddressSpaceFreed(root)[j]
  {
    var freed := AddressSpaceFreed(root);
    AddressSpaceContents(root);
    forall i, j | 0 <= i < j < |freed|
      ensures freed[i] != freed[j]
    {
      var x := freed[i];
      assert freed == freed[..j] + [freed[j]] + freed[j + 1..];
      assert freed[..j][i] == x;
      assert multiset(freed)[x] >= multiset(freed[..j])[x] + multiset([freed[j]])[x];
    }
  }

  /// A page the walk finds mapped is handed to the deallocator.
  lemma {:induction false} MappedPageFreed(t: Table, level: nat, p: nat)
    requires WF(t, level) && Find(t, level, p).Desc? && Find(t, level, p).d.MappedAddress().Some?
    ensures Find(t, level, p).d.MappedAddress().value in Freed(t)
    decreases t
  {
    if t.Leaf? {
      MappedFrameListed(t.descs, ENTRIES, PgIndex(3, p));
    } else {
      var i := PgIndex(level, p);
      MappedPageFreed(t.entries[i].table, level + 1, p);
      EntryInPrefix(t, i, ENTRIES);
    }
  }

  lemma {:induction false} MappedFrameListed(descs: seq<L3Desc>, n: nat, i: nat)
    requires i < n <= |descs| && descs[i].MappedAddress().Some?
    ensures descs[i].MappedAddress().value in MappedFrames(descs, n)
  {
    if i < n - 1 {
      MappedFrameListed(descs, n - 1, i);
    }
  }

  /// The calls of entry `i` appear among those of any prefix containing it.
  lemma {:induction false} EntryInPrefix(t: Table, i: nat, n: nat)
    requires t.Inner? && i < n <= |t.entries|
    ensures forall x | x in EntryFreed(t, i) :: x in PrefixFreed(t, n)
  {
    if i < n - 1 {
      EntryInPrefix(t, i, n - 1);
    }
  }

  /// A prefix of the entries is torn down before the rest.
  lemma {:induction false} PrefixFirst(t: Table, n: nat, m: nat)
    requires t.Inner? && n <= m <= |t.entries|
    ensures PrefixFreed(t, n) <= PrefixFreed(t, m)
    decreases m
  {
    if n < m {
      PrefixFirst(t, n, m - 1);
    }
  }

  /// Depth first: the calls for a next-level table (its pages and tables,
  /// then its own frame) come out together, after those of every earlier
  /// entry and before those of every later one.
  lemma ChildBeforeParent(t: Table, i: nat)
    requires t.Inner? && i < |t.entries| && t.entries[i].Next?
    ensures PrefixFreed(t, i) + Freed(t.entries[i].table) + [t.entries[i].table.frame] <= Freed(t)
  {
    PrefixFirst(t, i + 1, |t.entries|);
  }

  /// An address space with no mappings frees only its L0 table.
  lemma EmptyFreesRoot(root: Table)
    requires root.Inner? && forall i | 0 <= i < |root.entries| :: root.entries[i].Empty?
    ensures AddressSpaceFreed(root) == [root.frame]
  {
    SkipNonTables(root, 0, |root.entries|);
  }
}
