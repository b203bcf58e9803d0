/// The block cache between the byte-level buffer and a block device: a
/// least-recently-used list of blocks, each with a dirty flag.
module BlockCaching {
  import opened Common

  /// A cached block.
  datatype CacheEntry = CacheEntry(block: nat, data: seq<byte>, dirty: bool)

  /// The device: the bytes of each block it holds. Reading a block it does
  /// not hold fails.
  type Disk = map<nat, seq<byte>>

  function ReadBlock(disk: Disk, b: nat): Result<seq<byte>>
  {
    if b in disk then Ok(disk[b]) else Err(OutOfBounds)
  }

  /// `find_position`: the first entry, from the front, holding block `b`.
  function IndexOf(entries: seq<CacheEntry>, b: nat): (r: Option<nat>)
    ensures r.Some? ==> r.value < |entries| && entries[r.value].block == b
    ensures r.Some? ==> forall j | 0 <= j < r.value :: entries[j].block != b
    ensures r.None? ==> forall j | 0 <= j < |entries| :: entries[j].block != b
  {
    if |entries| == 0 then None
    else if entries[0].block == b then Some(0)
    else
      match IndexOf(entries[1..], b)
      case None => None
      case Some(p) => Some(p + 1)
  }

  /// No block is cached twice.
  predicate Distinct(entries: seq<CacheEntry>)
  {
    forall i, j | 0 <= i < j < |entries| :: entries[i].block != entries[j].block
  }

  /// Every cached block holds what the device holds.
  predicate Coherent(entries: seq<CacheEntry>, disk: Disk)
  {
    forall i | 0 <= i < |entries| :: entries[i].block in disk && entries[i].data == disk[entries[i].block]
  }

  /// Every clean cached block holds what the device holds.
  predicate CleanCoherent(entries: seq<CacheEntry>, disk: Disk)
  {
    forall i | 0 <= i < |entries| && !entries[i].dirty :: entries[i].block in disk && entries[i].data == disk[entries[i].block]
  }

  /// A hit: the entry at `p` moves to the front, the others keep their order.
  function MoveToFront(entries: seq<CacheEntry>, p: nat): seq<CacheEntry>
    requires p < |entries|
  {
    [entries[p]] + entries[..p] + entries[p + 1..]
  }

  /// `insert`: when the cache is full its back entry is dropped, then the
  /// new entry goes to the front.
  function Inserted(entries: seq<CacheEntry>, capacity: nat, e: CacheEntry): seq<CacheEntry>
  {
    if |entries| == capacity && |entries| > 0 then [e] + entries[..|entries| - 1] else [e] + entries
  }

  /// What `get_or_load` returns: the cached data on a hit, else the
  /// device's block.
  function Lookup(entries: seq<CacheEntry>, disk: Disk, b: nat): Result<seq<byte>>
  {
    match IndexOf(entries, b)
    case Some(p) => Ok(entries[p].data)
    case None => ReadBlock(disk, b)
  }

  /// The cache after `get_or_load`: a hit moves to the front, a miss is
  /// inserted clean, a failed read changes nothing.
  function AfterLoad(entries: seq<CacheEntry>, capacity: nat, disk: Disk, b: nat): seq<CacheEntry>
  {
    match IndexOf(entries, b)
    case Some(p) => MoveToFront(entries, p)
    case None => if b in disk then Inserted(entries, capacity, CacheEntry(b, disk[b], false)) else entries
  }

  /// The front entry marked dirty.
  function MarkFront(entries: seq<CacheEntry>): seq<CacheEntry>
  {
    if |entries| == 0 then entries else entries[0 := entries[0].(dirty := true)]
  }

  /// The device after the dirty entries are written in order.
  function Flushed(disk: Disk, entries: seq<CacheEntry>): Disk
  {
    if |entries| == 0 then disk
    else
      var e := entries[|entries| - 1];
      var before := Flushed(disk, entries[..|entries| - 1]);
      if e.dirty then before[e.block := e.data] else before
  }

  /// Every entry with its dirty flag cleared.
  function Cleaned(entries: seq<CacheEntry>): (r: seq<CacheEntry>)
    ensures |r| == |entries|
    ensures forall i | 0 <= i < |r| :: r[i] == entries[i].(dirty := false)
  {
    seq(|entries|, i requires 0 <= i < |entries| => entries[i].(dirty := false))
  }

  /// Whether some dirty entry holds block `b`.
  predicate HasDirty(entries: seq<CacheEntry>, b: nat)
  {
    exists i | 0 <= i < |entries| :: entries[i].dirty && entries[i].block == b
  }

  // ---------------------------------------------------------------------
  // What the operations keep

  /// Insertion never grows a cache of positive capacity past it; a cache of
  /// capacity zero grows by one entry on every insertion.
  lemma InsertedSize(entries: seq<CacheEntry>, capacity: nat, e: CacheEntry)
    ensures capacity > 0 && |entries| <= capacity ==> |Inserted(entries, capacity, e)| <= capacity
    ensures capacity == 0 ==> |Inserted(entries, capacity, e)| == |entries| + 1
    ensures Inserted(entries, capacity, e)[0] == e
  {
  }

  /// A full cache drops its least recently used entry, dirty or not,
  /// without writing it anywhere: its contents are lost from the cache.
  lemma EvictionDropsBack(entries: seq<CacheEntry>, capacity: nat, e: CacheEntry)
    requires |entries| == capacity > 0 && Distinct(entries) && e.block != entries[capacity - 1].block
    ensures IndexOf(Inserted(entries, capacity, e), entries[capacity - 1].block).None?
  {
    var r := Inserted(entries, capacity, e);
    forall j | 0 <= j < |r|
      ensures r[j].block != entries[capacity - 1].block
    {
      if j > 0 {
        assert r[j] == entries[j - 1];
      }
    }
  }

  /// A hit reorders the cache and changes no entry: the block comes to the
  /// front with its data and dirty flag.
  lemma HitKeepsEntries(entries: seq<CacheEntry>, p: nat)
    requires p < |entries|
    ensures var r := MoveToFront(entries, p);
      && |r| == |entries| && r[0] == entries[p]
      && multiset(r) == multiset(entries)
  {
    assert entries == entries[..p] + [entries[p]] + entries[p + 1..];
  }

  /// After a successful load the block is at the front and holds the data
  /// returned; a failed load changes nothing. Bounds, uniqueness and
  /// agreement with the device are kept.
  lemma LoadEffect(entries: seq<CacheEntry>, capacity: nat, disk: Disk, b: nat)
    ensures var r := AfterLoad(entries, capacity, disk, b);
      && (Lookup(entries, disk, b).Ok? ==> |r| > 0 && r[0].block == b && r[0].data == Lookup(entries, disk, b).value)
      && (Lookup(entries, disk, b).Err? ==> r == entries && b !in disk)
      && (IndexOf(entries, b).Some? ==> r[0] == entries[IndexOf(entries, b).value] && multiset(r) == multiset(entries))
      && (IndexOf(entries, b).None? && b in disk ==> r[0] == CacheEntry(b, disk[b], false))
      && (capacity > 0 && |entries| <= capacity ==> |r| <= capacity)
      && (Distinct(entries) ==> Distinct(r))
      && (Coherent(entries, disk) ==> Coherent(r, disk))
      && (CleanCoherent(entries, disk) ==> CleanCoherent(r, disk))
  {
    var r := AfterLoad(entries, capacity, disk, b);
    match IndexOf(entries, b)
    case Some(p) =>
      HitKeepsEntries(entries, p);
      MoveToFrontKeeps(entries, p);
    case None =>
      if b in disk {
        InsertedKeeps(entries, capacity, CacheEntry(b, disk[b], false), disk);
      }
  }

  /// Where the entry at `i` after a hit at `p` came from.
  function FrontSource(i: nat, p: nat): nat
  {
    if i == 0 then p else if i <= p then i - 1 else i
  }

  lemma MoveToFrontKeeps(entries: seq<CacheEntry>, p: nat)
    requires p < |entries|
    ensures var r := MoveToFront(entries, p);
      forall i | 0 <= i < |r| :: FrontSource(i, p) < |entries| && r[i] == entries[FrontSource(i, p)]
    ensures Distinct(entries) ==> Distinct(MoveToFront(entries, p))
  {
    var r := MoveToFront(entries, p);
    forall i | 0 <= i < |r|
      ensures FrontSource(i, p) < |entries| && r[i] == entries[FrontSource(i, p)]
    {
    }
    if Distinct(entries) {
      forall i, j | 0 <= i < j < |r|
        ensures r[i].block != r[j].block
      {
        assert FrontSource(i, p) != FrontSource(j, p);
      }
    }
  }

  lemma InsertedKeeps(entries: seq<CacheEntry>, capacity: nat, e: CacheEntry, disk: Disk)
    requires e.block in disk && e.data == disk[e.block] && !e.dirty
    requires forall j | 0 <= j < |entries| :: entries[j].block != e.block
    ensures var r := Inserted(entries, capacity, e);
      && (Distinct(entries) ==> Distinct(r))
      && (Coherent(entries, disk) ==> Coherent(r, disk))
      && (CleanCoherent(entries, disk) ==> CleanCoherent(r, disk))
  {
    var r := Inserted(entries, capacity, e);
    assert forall i | 0 < i < |r| :: r[i] == entries[i - 1];
  }

  /// While every cached block agrees with the device, a load returns the
  /// device's block: the cache is invisible to readers.
  lemma CoherentLookup(entries: seq<CacheEntry>, disk: Disk, b: nat)
    requires Coherent(entries, disk)
    ensures Lookup(entries, disk, b) == ReadBlock(disk, b)
  {
    match IndexOf(entries, b)
    case Some(p) =>
      assert entries[p].block == b && entries[p].data == disk[b];
    case None =>
  }

  /// After the dirty entries are written (no block cached twice), each
  /// dirty entry's data is on the device, and every other block is as it
  /// was.
  lemma {:induction false} FlushedContents(disk: Disk, entries: seq<CacheEntry>)
    requires Distinct(entries)
    ensures var d := Flushed(disk, entries);
      && (forall i | 0 <= i < |entries| && entries[i].dirty :: entries[i].block in d && d[entries[i].block] == entries[i].data)
      && (forall b | b in disk && !HasDirty(entries, b) :: b in d && d[b] == disk[b])
      && (forall b | b in d :: b in disk || HasDirty(entries, b))
  {
    if |entries| > 0 {
      var n := |entries| - 1;
      var front := entries[..n];
      assert Distinct(front);
      FlushedContents(disk, front);
      forall b | HasDirty(front, b)
        ensures HasDirty(entries, b)
      {
        var i :| 0 <= i < |front| && front[i].dirty && front[i].block == b;
        assert entries[i] == front[i];
      }
      forall i | 0 <= i < n
        ensures entries[i] == front[i]
      {
      }
      forall b | !HasDirty(front, b) && HasDirty(entries, b)
        ensures entries[n].dirty && entries[n].block == b
      {
        forall i | 0 <= i < n
          ensures !(entries[i].dirty && entries[i].block == b)
        {
          assert front[i] == entries[i];
        }
      }
    }
  }

  /// Writing the dirty entries back and clearing their flags leaves every
  /// cached block agreeing with the device.
  lemma FlushMakesCoherent(disk: Disk, entries: seq<CacheEntry>)
    requires Distinct(entries) && CleanCoherent(entries, disk)
    ensures Coherent(Cleaned(entries), Flushed(disk, entries))
  {
    FlushedContents(disk, entries);
    var d := Flushed(disk, entries);
    forall i | 0 <= i < |entries| && !entries[i].dirty
      ensures entries[i].block in d && d[entries[i].block] == entries[i].data
    {
      forall j | 0 <= j < |entries| && entries[j].dirty
        ensures entries[j].block != entries[i].block
      {
        assert i != j;
      }
    }
  }

  // ---------------------------------------------------------------------
  // The cache

  /// `BlockCache`: most recently used block at the front of `cache`.
  class BlockCache {
    var cache: seq<CacheEntry>
    const capacity: nat
    const blockSize: nat
    /// The block device the cache owns.
    var disk: Disk

    /// The cache never holds more than its capacity and never holds a
    /// block twice.
    predicate Valid()
      reads this
    {
      (capacity > 0 ==> |cache| <= capacity) && Distinct(cache)
    }

    /// `BlockCache::new`.
    constructor (capacity: nat, blockSize: nat, disk: Disk)
      ensures this.capacity == capacity && this.blockSize == blockSize && this.disk == disk
      ensures cache == [] && Valid()
    {
      this.capacity := capacity;
      this.blockSize := blockSize;
      this.disk := disk;
      cache := [];
    }

    /// `find_position`.
    method FindPosition(b: nat) returns (r: Option<nat>)
      ensures r == IndexOf(cache, b)
    {
      var i := 0;
      while i < |cache|
        invariant i <= |cache|
        invariant forall j | 0 <= j < i :: cache[j].block != b
      {
        if cache[i].block == b {
          IndexOfFirst(cache, b, i);
          return Some(i);
        }
        i := i + 1;
      }
      IndexOfNone(cache, b);
      return None;
    }

    /// `insert`.
    method Insert(b: nat, data: seq<byte>)
      modifies this
      ensures cache == Inserted(old(cache), capacity, CacheEntry(b, data, false))
      ensures disk == old(disk)
    {
      if |cache| == capacity && |cache| > 0 {
        cache := cache[..|cache| - 1];
      }
      cache := [CacheEntry(b, data, false)] + cache;
    }

    /// `get_or_load`.
    method GetOrLoad(b: nat) returns (r: Result<seq<byte>>)
      modifies this
      ensures r == Lookup(old(cache), disk, b)
      ensures cache == AfterLoad(old(cache), capacity, disk, b)
      ensures disk == old(disk)
      ensures old(Valid()) ==> Valid()
      ensures Coherent(old(cache), disk) ==> Coherent(cache, disk) && r == ReadBlock(disk, b)
    {
      LoadEffect(cache, capacity, disk, b);
      if Coherent(cache, disk) {
        CoherentLookup(cache, disk, b);
      }
      var pos := FindPosition(b);
      if pos.Some? {
        var entry := cache[pos.value];
        cache := [entry] + cache[..pos.value] + cache[pos.value + 1..];
        return Ok(entry.data);
      }
      var data := ReadBlock(disk, b);
      if data.Err? {
        return data;
      }
      Insert(b, data.value);
      return Ok(cache[0].data);
    }

    /// `get_or_load_mut`: a load that leaves the block marked dirty.
    method GetOrLoadMut(b: nat) returns (r: Result<seq<byte>>)
      modifies this
      ensures r == Lookup(old(cache), disk, b)
      ensures cache == if r.Ok? then MarkFront(AfterLoad(old(cache), capacity, disk, b)) else old(cache)
      ensures disk == old(disk)
      ensures old(Valid()) ==> Valid()
      ensures Coherent(old(cache), disk) ==> Coherent(cache, disk) && r == ReadBlock(disk, b)
    {
      LoadEffect(cache, capacity, disk, b);
      r := GetOrLoad(b);
      if r.Ok? {
        cache := cache[0 := cache[0].(dirty := true)];
      }
    }

    /// `write_back`: replaces a cached block's data and marks it dirty, or
    /// inserts it and marks it dirty.
    method WriteBack(b: nat, data: seq<byte>)
      modifies this
      ensures cache == match IndexOf(old(cache), b)
        case Some(p) => old(cache)[p := CacheEntry(b, data, true)]
        case None => Inserted(old(cache), capacity, CacheEntry(b, data, true))
      ensures disk == old(disk)
    {
      var pos := FindPosition(b);
      if pos.Some? {
        cache := cache[pos.value := CacheEntry(b, data, true)];
      } else {
        Insert(b, data);
        var again := FindPosition(b);
        if again.Some? {
          cache := cache[again.value := cache[again.value].(dirty := true)];
        }
      }
    }

    /// `write_dirty`: every dirty block, front to back, is written to the
    /// device and marked clean; clean blocks are not written.
    method WriteDirty()
      modifies this
      ensures disk == Flushed(old(disk), old(cache))
      ensures cache == Cleaned(old(cache))
    {
      for i := 0 to |cache|
        invariant |cache| == |old(cache)|
        invariant disk == Flushed(old(disk), old(cache)[..i])
        invariant forall j | 0 <= j < i :: cache[j] == old(cache)[j].(dirty := false)
        invariant forall j | i <= j < |cache| :: cache[j] == old(cache)[j]
      {
        assert old(cache)[..i + 1][..i] == old(cache)[..i];
        var entry := cache[i];
        if entry.dirty {
          disk := disk[entry.block := entry.data];
          cache := cache[i := entry.(dirty := false)];
        }
      }
      assert old(cache)[..|cache|] == old(cache);
    }
  }

  lemma IndexOfFirst(entries: seq<CacheEntry>, b: nat, i: nat)
    requires i < |entries| && entries[i].block == b
    requires forall j | 0 <= j < i :: entries[j].block != b
    ensures IndexOf(entries, b) == Some(i)
  {
  }

  lemma IndexOfNone(entries: seq<CacheEntry>, b: nat)
    requires forall j | 0 <= j < |entries| :: entries[j].block != b
    ensures IndexOf(entries, b) == None
  {
  }
}
