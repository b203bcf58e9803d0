/// FAT32: cluster and sector numbers, the file allocation table (its
/// decoding from disk and the cluster chains it links), and the checks
/// made when the file system is mounted.
module Fat32 {
  import opened Common


  /// A sector number (`Sector(u32)`).
  type Sector = s: nat | s < U32_LIMIT

  /// A cluster number (`Cluster(u32)`).
  type Cluster = c: nat | c < U32_LIMIT

  /// `Sector + Sector`: the 32-bit sum, which wraps past 2^32 (as a
  /// release build does).
  function SectorAdd(a: Sector, b: Sector): (s: Sector)
    ensures a + b < U32_LIMIT ==> s == a + b
    ensures a + b >= U32_LIMIT ==> s == a + b - U32_LIMIT
    ensures (s + U32_LIMIT - b) % U32_LIMIT == a
  {
    (a + b) % U32_LIMIT
  }

  /// `Sector * usize`: the factor is truncated to 32 bits and the product
  /// wraps past 2^32 (as a release build does).
  function SectorMul(a: Sector, k: nat): (s: Sector)
    ensures k < U32_LIMIT && a * k < U32_LIMIT ==> s == a * k
    ensures k % U32_LIMIT == 0 ==> s == 0
    ensures s == (a * k) % U32_LIMIT
  {
    var factor := k % U32_LIMIT;
    TruncatedFactor(a, k);
    (a * factor) % U32_LIMIT
  }

  /// Truncating the factor to 32 bits does not change the product
  /// modulo 2^32.
  lemma TruncatedFactor(a: nat, k: nat)
    ensures (a * (k % U32_LIMIT)) % U32_LIMIT == (a * k) % U32_LIMIT
  {
    var q, r := k / U32_LIMIT, k % U32_LIMIT;
    assert a * k == (a * q) * U32_LIMIT + a * r;
    var m := a * r;
    DivAdd(a * q + m / U32_LIMIT, U32_LIMIT, m % U32_LIMIT);
    DivAdd(m / U32_LIMIT, U32_LIMIT, m % U32_LIMIT);
    assert (a * q) * U32_LIMIT + m == (a * q + m / U32_LIMIT) * U32_LIMIT + m % U32_LIMIT;
  }

  /// `sectors_until`: the sectors from `from` up to, not including, `until`.
  function SectorsUntil(from: Sector, until: Sector): (ss: seq<Sector>)
    ensures |ss| == if until <= from then 0 else until - from
    ensures forall i | 0 <= i < |ss| :: ss[i] == from + i
    decreases until - from
  {
    if until <= from then [] else [from] + SectorsUntil(from + 1, until)
  }

  /// `Cluster::from_high_low`: the high half shifted above the low half.
  /// The halves occupy disjoint bits, so the `|` is a sum.
  function FromHighLow(high: nat, low: nat): (c: Cluster)
    requires high < 0x10000 && low < 0x10000
    ensures c / 0x10000 == high && c % 0x10000 == low
  {
    DivAdd(high, 0x10000, low);
    high * 0x10000 + low
  }

  /// Every cluster number is made of its two halves.
  lemma HighLowRoundTrip(c: Cluster)
    ensures FromHighLow(c / 0x10000, c % 0x10000) == c
  {
    DivBelow(c, 0x10000, 0x10000);
  }

  /// `Cluster::is_valid`: clusters 0 and 1 are reserved.
  predicate IsValidCluster(c: Cluster): (b: bool)
    ensures b <==> c != 0 && c != 1
  {
    c >= 2
  }

  // ---------------------------------------------------------------------
  // Table entries

  /// A decoded FAT entry.
  datatype FatEntry = Eoc | NextCluster(next: Cluster) | Bad | Reserved | Free

  /// The entry bits: FAT32 uses the low 28 bits of each 32-bit word.
  const ENTRY_LIMIT: nat := 0x1000_0000

  /// `FatEntry::from(u32)`: the top four bits are ignored; 0 is free, 1
  /// reserved, 0x0FFFFFF7 bad, 0x0FFFFFF8 and above end of chain, anything
  /// else the next cluster.
  function DecodeEntry(value: nat): (e: FatEntry)
    requires value < U32_LIMIT
    ensures var n := value % ENTRY_LIMIT;
      && (e == Free <==> n == 0)
      && (e == Reserved <==> n == 1)
      && (e.NextCluster? <==> 2 <= n <= 0xFFFFFF6)
      && (e.NextCluster? ==> e.next == n)
      && (e == Bad <==> n == 0xFFFFFF7)
      && (e == Eoc <==> 0xFFFFFF8 <= n)
  {
    var n := value % ENTRY_LIMIT;
    if n == 0 then Free
    else if n == 1 then Reserved
    else if n <= 0xFFFFFF6 then NextCluster(n)
    else if n == 0xFFFFFF7 then Bad
    else Eoc
  }

  /// A table entry never links to a reserved cluster.
  lemma LinkedClusterValid(value: nat)
    requires value < U32_LIMIT
    ensures DecodeEntry(value).NextCluster? ==> IsValidCluster(DecodeEntry(value).next)
  {
  }

  /// Words that differ only in their top four bits decode alike.
  lemma DecodeIgnoresTopBits(value: nat, top: nat)
    requires value < ENTRY_LIMIT && top < 16
    ensures DecodeEntry(top * ENTRY_LIMIT + value) == DecodeEntry(value)
  {
    DivAdd(top, ENTRY_LIMIT, value);
  }

  /// `u32::from_le_bytes` of the four bytes at `at`.
  function LittleEndian32(b: seq<byte>, at: nat): (v: nat)
    requires at + 4 <= |b|
    ensures v < U32_LIMIT
  {
    b[at] as nat + 0x100 * (b[at + 1] as nat) + 0x1_0000 * (b[at + 2] as nat) + 0x100_0000 * (b[at + 3] as nat)
  }

  /// The entries of one sector: `chunks_exact(4)`, each word decoded; a
  /// trailing partial word is dropped.
  function DecodeSector(b: seq<byte>): (es: seq<FatEntry>)
    ensures |es| == |b| / 4
    ensures forall k | 0 <= k < |es| :: 4 * k + 4 <= |b| && es[k] == DecodeEntry(LittleEndian32(b, 4 * k))
  {
    seq(|b| / 4, k requires 0 <= k < |b| / 4 => DecodeEntry(LittleEndian32(b, 4 * k)))
  }

  // ---------------------------------------------------------------------
  // Reading the table

  /// The device as the table reader sees it: the bytes of one sector, or
  /// the error reading it failed with.
  type SectorReader = Sector -> Result<seq<byte>>

  /// The table held by the `n` sectors from `start`: each sector's entries
  /// in sector order, or the first read error.
  function TableFrom(read: SectorReader, start: Sector, n: nat): Result<seq<FatEntry>>
    requires start + n <= U32_LIMIT
  {
    if n == 0 then Ok([])
    else
      match TableFrom(read, start, n - 1)
      case Err(e) => Err(e)
      case Ok(prefix) =>
        match read(start + n - 1)
        case Err(e) => Err(e)
        case Ok(b) => Ok(prefix + DecodeSector(b))
  }

  /// `Fat::read_fat`: the region of the requested copy (`None` when the
  /// boot sector has no such copy), then its sectors one by one.
  method ReadFat(region: Option<(Sector, Sector)>, read: SectorReader) returns (r: Result<seq<FatEntry>>)
    ensures region.None? ==> r == Err(InvalidFs)
    ensures region.Some? ==>
      var (start, end) := region.value;
      r == TableFrom(read, start, if end <= start then 0 else end - start)
  {
    if region.None? {
      return Err(InvalidFs);
    }
    var (start, end) := region.value;
    var sectors := SectorsUntil(start, end);
    var fat: seq<FatEntry> := [];
    for i := 0 to |sectors|
      invariant TableFrom(read, start, i) == Ok(fat)
    {
      var buf := read(sectors[i]);
      if buf.Err? {
        TableErrorPersists(read, start, i + 1, |sectors|);
        return Err(buf.error);
      }
      fat := fat + DecodeSector(buf.value);
    }
    return Ok(fat);
  }

  /// Once a read fails, reading further sectors does not change the error.
  lemma {:induction false} TableErrorPersists(read: SectorReader, start: Sector, k: nat, n: nat)
    requires k <= n && start + n <= U32_LIMIT && TableFrom(read, start, k).Err?
    ensures TableFrom(read, start, n) == TableFrom(read, start, k)
    decreases n
  {
    if k < n {
      TableErrorPersists(read, start, k, n - 1);
    }
  }

  /// With sectors of `size` bytes, entry `k` of sector `j` of the region
  /// is the `k`-th little-endian word of that sector, decoded.
  lemma {:induction false} TableLayout(read: SectorReader, start: Sector, n: nat, size: nat, j: nat, k: nat)
    requires start + n <= U32_LIMIT && TableFrom(read, start, n).Ok?
    requires forall s: Sector | start <= s < start + n :: read(s).Ok? && |read(s).value| == size
    requires j < n && k < size / 4
    ensures |TableFrom(read, start, n).value| == n * (size / 4)
    ensures j * (size / 4) + k < n * (size / 4)
    ensures TableFrom(read, start, n).value[j * (size / 4) + k] == DecodeEntry(LittleEndian32(read(start + j).value, 4 * k))
  {
    var w := size / 4;
    var whole, prefix := TableFrom(read, start, n).value, TableFrom(read, start, n - 1).value;
    var last := DecodeSector(read(start + n - 1).value);
    assert whole == prefix + last;
    TableLength(read, start, n - 1, size);
    TableLength(read, start, n, size);
    SlotWithin(j, w, n);
    if j < n - 1 {
      TableLayout(read, start, n - 1, size, j, k);
      SlotWithin(j, w, n - 1);
      assert whole[j * w + k] == prefix[j * w + k];
    } else {
      assert whole[j * w + k] == last[k];
    }
  }

  lemma {:induction false} TableLength(read: SectorReader, start: Sector, n: nat, size: nat)
    requires start + n <= U32_LIMIT && TableFrom(read, start, n).Ok?
    requires forall s: Sector | start <= s < start + n :: read(s).Ok? && |read(s).value| == size
    ensures |TableFrom(read, start, n).value| == n * (size / 4)
  {
    if n > 0 {
      assert TableFrom(read, start, n - 1).Ok?;
      TableLength(read, start, n - 1, size);
    }
  }

  // ---------------------------------------------------------------------
  // Cluster chains

  /// One call of `ClusterChainIterator::next` from the pending cluster:
  /// the item it yields and the cluster it leaves pending.
  function ChainStep(fat: seq<FatEntry>, pending: Option<Cluster>): (Option<Result<Cluster>>, Option<Cluster>)
  {
    match pending
    case None => (None, None)
    case Some(c) =>
      if c >= |fat| then (Some(Err(OutOfBounds)), None)
      else
        match fat[c]
        case Eoc => (Some(Ok(c)), None)
        case NextCluster(next) => (Some(Ok(c)), Some(next))
        case _ => (Some(Err(MetadataCorruption)), None)
  }

  /// The items of at most `n` calls of `next` from the pending cluster.
  function Chain(fat: seq<FatEntry>, pending: Option<Cluster>, n: nat): seq<Result<Cluster>>
    decreases n
  {
    if n == 0 || pending.None? then []
    else
      var (item, rest) := ChainStep(fat, pending);
      [item.value] + Chain(fat, rest, n - 1)
  }

  /// `ClusterChainIterator`: walks a chain through the table.
  class ClusterChainIterator {
    const fat: seq<FatEntry>
    var pending: Option<Cluster>

    /// `Fat::get_cluster_chain`: the chain begins at `root`.
    constructor (fat: seq<FatEntry>, root: Cluster)
      ensures this.fat == fat && pending == Some(root)
    {
      this.fat := fat;
      pending := Some(root);
    }

    /// `next`.
    method Next() returns (item: Option<Result<Cluster>>)
      modifies this
      ensures (item, pending) == ChainStep(fat, old(pending))
    {
      if pending.None? {
        return None;
      }
      var cluster := pending.value;
      if cluster >= |fat| {
        pending := None;
        return Some(Err(OutOfBounds));
      }
      match fat[cluster] {
        case Eoc =>
          pending := None;
        case NextCluster(next) =>
          pending := Some(next);
        case _ =>
          pending := None;
          return Some(Err(MetadataCorruption));
      }
      return Some(Ok(cluster));
    }

    /// `collect`, for at most `limit` items: a chain that loops never ends,
    /// so the bound is the caller's.
    method Collect(limit: nat) returns (items: seq<Result<Cluster>>)
      modifies this
      ensures items == Chain(fat, old(pending), limit)
    {
      items := [];
      var left: nat := limit;
      while left > 0
        invariant left <= limit
        invariant items + Chain(fat, pending, left) == Chain(fat, old(pending), limit)
        decreases left
      {
        var item := Next();
        if item.None? {
          assert Chain(fat, pending, left) == [];
          break;
        }
        items := items + [item.value];
        left := left - 1;
      }
    }
  }

  /// A chain's first item is its root cluster, unless the root is outside
  /// the table or its entry is unusable.
  lemma ChainStartsAtRoot(fat: seq<FatEntry>, root: Cluster, n: nat)
    requires n > 0
    ensures var items := Chain(fat, Some(root), n);
      && |items| > 0
      && (items[0] == Ok(root) <==> root < |fat| && (fat[root].Eoc? || fat[root].NextCluster?))
      && (root >= |fat| ==> items == [Err(OutOfBounds)])
  {
  }

  /// The clusters of a chain are linked: each is followed by the cluster
  /// its entry names; an end-of-chain entry or an error is always the
  /// last item.
  lemma {:induction false} ChainLinked(fat: seq<FatEntry>, pending: Option<Cluster>, n: nat)
    ensures var items := Chain(fat, pending, n);
      && (forall i | 0 <= i < |items| && items[i].Err? :: i == |items| - 1)
      && (forall i | 0 <= i < |items| && items[i].Ok? :: items[i].value < |fat| && (fat[items[i].value].Eoc? || fat[items[i].value].NextCluster?))
      && (forall i | 0 <= i < |items| && items[i].Ok? && fat[items[i].value].Eoc? :: i == |items| - 1)
      && (forall i | 0 <= i < |items| - 1 :: items[i].Ok? && fat[items[i].value] == NextCluster(ChainStep(fat, Some(items[i].value)).1.value))
      && (forall i | 0 <= i < |items| - 1 && items[i + 1].Ok? :: fat[items[i].value] == NextCluster(items[i + 1].value))
    decreases n
  {
    if n > 0 && pending.Some? {
      var (item, rest) := ChainStep(fat, pending);
      ChainLinked(fat, rest, n - 1);
      var tail := Chain(fat, rest, n - 1);
      assert Chain(fat, pending, n) == [item.value] + tail;
      if rest.Some? && n > 1 {
        ChainStartsAtRoot(fat, rest.value, n - 1);
      }
    }
  }

  // ---------------------------------------------------------------------
  // The table of the chain tests

  /// Seventeen entries: single cluster at 2, linear 3-4-5, fragmented
  /// 6-10-8, 7 leading to a bad cluster, 11 to a free one, a cycle
  /// 13-14-15 and 16 pointing outside the table.
  function SampleFat(): seq<FatEntry>
  {
    [Free, Reserved, Eoc, NextCluster(4), NextCluster(5), Eoc, NextCluster(10), NextCluster(9),
     Eoc, Bad, NextCluster(8), NextCluster(12), Free, NextCluster(14), NextCluster(15),
     NextCluster(13), NextCluster(99)]
  }

  /// The outcomes the chain tests expect: chains ending at an
  /// end-of-chain entry.
  lemma SampleWholeChains()
    ensures Chain(SampleFat(), Some(2), 10) == [Ok(2)]
    ensures Chain(SampleFat(), Some(3), 10) == [Ok(3), Ok(4), Ok(5)]
    ensures Chain(SampleFat(), Some(6), 10) == [Ok(6), Ok(10), Ok(8)]
  {
    assert Chain(SampleFat(), Some(5), 8) == [Ok(5)];
    assert Chain(SampleFat(), Some(4), 9) == [Ok(4), Ok(5)];
    assert Chain(SampleFat(), Some(8), 8) == [Ok(8)];
    assert Chain(SampleFat(), Some(10), 9) == [Ok(10), Ok(8)];
  }

  /// The outcomes the chain tests expect: chains cut short by a bad or
  /// free entry, or by a cluster outside the table.
  lemma SampleBrokenChains()
    ensures Chain(SampleFat(), Some(7), 10) == [Ok(7), Err(MetadataCorruption)]
    ensures Chain(SampleFat(), Some(11), 10) == [Ok(11), Err(MetadataCorruption)]
    ensures Chain(SampleFat(), Some(16), 10) == [Ok(16), Err(OutOfBounds)]
    ensures Chain(SampleFat(), Some(100), 10) == [Err(OutOfBounds)]
  {
    assert Chain(SampleFat(), Some(9), 9) == [Err(MetadataCorruption)];
    assert Chain(SampleFat(), Some(12), 9) == [Err(MetadataCorruption)];
    assert Chain(SampleFat(), Some(99), 9) == [Err(OutOfBounds)];
  }

  /// The cycle 13-14-15 never ends: every call of `next` yields a cluster.
  lemma {:induction false} SampleCycleNeverEnds(c: Cluster, n: nat)
    requires 13 <= c <= 15
    ensures |Chain(SampleFat(), Some(c), n)| == n
    ensures forall i | 0 <= i < n :: Chain(SampleFat(), Some(c), n)[i].Ok?
    decreases n
  {
    if n > 0 {
      var next := if c == 15 then 13 else c + 1;
      assert ChainStep(SampleFat(), Some(c)) == (Some(Ok(c)), Some(next));
      SampleCycleNeverEnds(next, n - 1);
    }
  }

  // ---------------------------------------------------------------------
  // Mounting

  /// `read_sector`: reads from `offset` within a sector to the end of the
  /// sector or of the buffer, whichever comes first, and reports the count.
  function ReadSectorLength(sectorSize: nat, offset: nat, bufLen: nat): (n: nat)
    requires offset < sectorSize
    ensures n <= bufLen && offset + n <= sectorSize
    ensures n == bufLen || offset + n == sectorSize
  {
    Min(bufLen, sectorSize - offset)
  }

  /// `bytes_per_cluster`: a cluster is a whole number of sectors.
  function BytesPerCluster(sectorsPerCluster: nat, sectorSize: nat): (b: nat)
    ensures sectorSize > 0 ==> b % sectorSize == 0 && b / sectorSize == sectorsPerCluster
    ensures sectorsPerCluster > 0 ==> b >= sectorSize
  {
    var b := sectorsPerCluster * sectorSize;
    if sectorsPerCluster == 0 || sectorSize == 0 then b
    else
      DivAdd(sectorsPerCluster, sectorSize, 0);
      MulLe(1, sectorsPerCluster, sectorSize);
      b
  }

  /// A byte offset inside a cluster lies in one of its sectors, at an
  /// offset `read_sector` accepts.
  lemma OffsetInCluster(sectorsPerCluster: nat, sectorSize: nat, offset: nat)
    requires sectorSize > 0 && offset < BytesPerCluster(sectorsPerCluster, sectorSize)
    ensures offset / sectorSize < sectorsPerCluster && offset % sectorSize < sectorSize
  {
    DivBelow(offset, sectorSize, sectorsPerCluster);
  }

  /// The check `Fat32Filesystem::new` makes of copies `from .. count - 1`:
  /// each is read in turn; a read error or a copy unlike `fat` stops it.
  function CopiesAgree(fat: seq<FatEntry>, readCopy: nat -> Result<seq<FatEntry>>, from: nat, count: nat): Result<()>
    decreases count - from
  {
    if from >= count then Ok(())
    else
      match readCopy(from)
      case Err(e) => Err(e)
      case Ok(other) => if other != fat then Err(InvalidFs) else CopiesAgree(fat, readCopy, from + 1, count)
  }

  /// `Fat32Filesystem::new`: reads FAT 0, then compares every further copy
  /// with it.
  method Mount(numFats: nat, readCopy: nat -> Result<seq<FatEntry>>) returns (r: Result<seq<FatEntry>>)
    ensures readCopy(0).Err? ==> r == Err(readCopy(0).error)
    ensures readCopy(0).Ok? ==>
      r == match CopiesAgree(readCopy(0).value, readCopy, 1, numFats)
           case Ok(_) => Ok(readCopy(0).value)
           case Err(e) => Err(e)
  {
    var first := readCopy(0);
    if first.Err? {
      return Err(first.error);
    }
    var fat := first.value;
    var n := 1;
    while n < numFats
      invariant 1 <= n && (n <= numFats || numFats == 0)
      invariant CopiesAgree(fat, readCopy, 1, numFats) == CopiesAgree(fat, readCopy, n, numFats)
      decreases numFats - n
    {
      var other := readCopy(n);
      if other.Err? {
        return Err(other.error);
      }
      if other.value != fat {
        return Err(InvalidFs);
      }
      n := n + 1;
    }
    return Ok(fat);
  }

  /// A mount succeeds only when every copy reads back equal to FAT 0, and
  /// a copy that reads back different makes it fail with `InvalidFs`
  /// unless an earlier copy failed first.
  lemma {:induction false} CopiesAgreeMeans(fat: seq<FatEntry>, readCopy: nat -> Result<seq<FatEntry>>, from: nat, count: nat)
    ensures CopiesAgree(fat, readCopy, from, count).Ok? <==> forall n | from <= n < count :: readCopy(n) == Ok(fat)
    ensures forall n | from <= n < count && readCopy(n).Ok? && readCopy(n).value != fat ::
      CopiesAgree(fat, readCopy, from, count).Err?
    decreases count - from
  {
    if from < count {
      CopiesAgreeMeans(fat, readCopy, from + 1, count);
    }
  }
}
