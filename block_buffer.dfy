/// Byte-level access to a block device through the block cache: a byte
/// range is turned into the run of blocks that covers it.
module BlockBuffering {
  import opened Common
  import opened BlockCaching

  /// The number of blocks the buffer's cache holds.
  const CACHE_BLOCKS: nat := 64

  /// Every block the device holds is `bs` bytes long.
  predicate Uniform(disk: Disk, bs: nat)
  {
    forall b | b in disk :: |disk[b]| == bs
  }

  /// Every block from `first` to `last`, inclusive, is on the device.
  predicate BlocksPresent(disk: Disk, first: nat, last: nat)
  {
    forall k | first <= k <= last :: k in disk
  }

  /// Every byte of `[offset, offset + len)` lies in a block on the device.
  predicate BytesPresent(disk: Disk, bs: nat, offset: nat, len: nat)
    requires bs > 0
  {
    forall pos | offset <= pos < offset + len :: pos / bs in disk
  }

  /// The bytes at `[offset, offset + len)` of the device's blocks laid end
  /// to end.
  function DeviceBytes(disk: Disk, bs: nat, offset: nat, len: nat): (r: seq<byte>)
    requires bs > 0 && Uniform(disk, bs) && BytesPresent(disk, bs, offset, len)
    ensures |r| == len
    ensures forall i | 0 <= i < len :: r[i] == DeviceByte(disk, bs, offset + i)
  {
    if len == 0 then [] else DeviceBytes(disk, bs, offset, len - 1) + [DeviceByte(disk, bs, offset + len - 1)]
  }

  function DeviceByte(disk: Disk, bs: nat, pos: nat): byte
    requires bs > 0 && Uniform(disk, bs) && pos / bs in disk
  {
    disk[pos / bs][pos % bs]
  }

  /// The blocks `s .. s + n - 1` laid end to end.
  function Blocks(disk: Disk, s: nat, n: nat): seq<byte>
    requires forall k | s <= k < s + n :: k in disk
  {
    if n == 0 then [] else Blocks(disk, s, n - 1) + disk[s + n - 1]
  }

  lemma {:induction false} BlocksIndex(disk: Disk, bs: nat, s: nat, n: nat, j: nat)
    requires bs > 0 && Uniform(disk, bs) && forall k | s <= k < s + n :: k in disk
    requires j < n * bs
    ensures |Blocks(disk, s, n)| == n * bs && j / bs < n
    ensures Blocks(disk, s, n)[j] == disk[s + j / bs][j % bs]
  {
    BlocksLength(disk, bs, s, n);
    DivBelow(j, bs, n);
    var prefix := Blocks(disk, s, n - 1);
    BlocksLength(disk, bs, s, n - 1);
    if j < (n - 1) * bs {
      BlocksIndex(disk, bs, s, n - 1, j);
      assert Blocks(disk, s, n)[j] == prefix[j];
    } else {
      var q := j - (n - 1) * bs;
      DivAdd(n - 1, bs, q);
      assert Blocks(disk, s, n)[j] == disk[s + n - 1][q];
    }
  }

  lemma {:induction false} BlocksLength(disk: Disk, bs: nat, s: nat, n: nat)
    requires Uniform(disk, bs) && forall k | s <= k < s + n :: k in disk
    ensures |Blocks(disk, s, n)| == n * bs
  {
    if n > 0 {
      BlocksLength(disk, bs, s, n - 1);
    }
  }

  /// Division by `c` of `a * c + q` for any `q`.
  lemma DivShift(a: nat, c: nat, q: nat)
    requires c > 0
    ensures (a * c + q) / c == a + q / c && (a * c + q) % c == q % c
  {
    assert a * c + q == (a + q / c) * c + q % c;
    DivAdd(a + q / c, c, q % c);
  }

  lemma DivMonotone(x: nat, y: nat, d: nat)
    requires x <= y && d > 0
    ensures x / d <= y / d
  {
    assert y < (y / d + 1) * d;
    DivBelow(x, d, y / d + 1);
  }

  /// Cutting the requested bytes out of the covering blocks gives the
  /// device's bytes at the requested offsets.
  lemma CutBytes(disk: Disk, bs: nat, offset: nat, len: nat, temp: seq<byte>)
    requires bs > 0 && len > 0 && Uniform(disk, bs)
    requires offset / bs <= (offset + len - 1) / bs
    requires BlocksPresent(disk, offset / bs, (offset + len - 1) / bs)
    requires temp == Blocks(disk, offset / bs, (offset + len - 1) / bs - offset / bs + 1)
    ensures offset % bs + len <= |temp|
    ensures BytesPresent(disk, bs, offset, len)
    ensures temp[offset % bs..offset % bs + len] == DeviceBytes(disk, bs, offset, len)
  {
    var start, end := offset / bs, (offset + len - 1) / bs;
    var count := end - start + 1;
    var from := offset % bs;
    BlocksLength(disk, bs, start, count);
    Cover(offset, len, bs);
    forall pos | offset <= pos < offset + len
      ensures pos / bs in disk
    {
      DivMonotone(offset, pos, bs);
      DivMonotone(pos, offset + len - 1, bs);
    }
    var cut := temp[from..from + len];
    forall i | 0 <= i < len
      ensures cut[i] == DeviceByte(disk, bs, offset + i)
    {
      CutByte(disk, bs, start * bs, start, count, temp, from + i);
    }
  }

  /// The covering blocks start at the block holding `offset` and reach
  /// past the last byte.
  lemma Cover(offset: nat, len: nat, bs: nat)
    requires bs > 0 && len > 0
    ensures offset / bs * bs + offset % bs == offset
    ensures offset / bs <= (offset + len - 1) / bs
    ensures offset % bs + len <= ((offset + len - 1) / bs - offset / bs + 1) * bs
  {
    var start, end := offset / bs, (offset + len - 1) / bs;
    DivMonotone(offset, offset + len - 1, bs);
    assert offset + len - 1 < (end + 1) * bs;
    assert (end + 1) * bs == (end - start + 1) * bs + start * bs;
  }

  /// Byte `j` of the covering blocks is the device byte `j` past the start
  /// of the first of them.
  lemma CutByte(disk: Disk, bs: nat, base: nat, start: nat, count: nat, temp: seq<byte>, j: nat)
    requires bs > 0 && Uniform(disk, bs) && base == start * bs
    requires forall k | start <= k < start + count :: k in disk
    requires temp == Blocks(disk, start, count)
    requires j < count * bs
    ensures (base + j) / bs in disk
    ensures |temp| == count * bs && temp[j] == DeviceByte(disk, bs, base + j)
  {
    BlocksIndex(disk, bs, start, count, j);
    DivShift(start, bs, j);
  }

  /// `BlockBuffer`: byte reads and writes over the cache.
  class BlockBuffer {
    const cache: BlockCache
    const blockSize: nat

    /// The cache is the buffer's: its block size is the device's, it holds
    /// at most 64 blocks, and what it holds agrees with the device.
    predicate Valid()
      reads this, cache
    {
      && cache.Valid() && cache.capacity == CACHE_BLOCKS
      && blockSize > 0 && cache.blockSize == blockSize
      && Uniform(cache.disk, blockSize) && Coherent(cache.cache, cache.disk)
    }

    /// `BlockBuffer::new`: a cache of 64 blocks of the device's block size.
    constructor (blockSize: nat, disk: Disk)
      requires blockSize > 0 && Uniform(disk, blockSize)
      ensures Valid() && fresh(cache)
      ensures this.blockSize == blockSize && cache.disk == disk && cache.cache == []
    {
      this.blockSize := blockSize;
      cache := new BlockCache(CACHE_BLOCKS, blockSize, disk);
    }

    /// `read_at`: an empty read touches nothing; otherwise every block from
    /// the one holding `offset` to the one holding the last byte is loaded
    /// through the cache, and the requested bytes are cut out of them.
    method ReadAt(offset: nat, len: nat) returns (r: Result<seq<byte>>)
      requires Valid()
      modifies cache
      ensures Valid() && cache.disk == old(cache.disk)
      ensures len == 0 ==> r == Ok([]) && cache.cache == old(cache.cache)
      ensures len > 0 ==> (r.Ok? <==> BlocksPresent(cache.disk, offset / blockSize, (offset + len - 1) / blockSize))
      ensures r.Err? ==> r.error == OutOfBounds
      ensures r.Ok? ==> BytesPresent(cache.disk, blockSize, offset, len) && r.value == DeviceBytes(cache.disk, blockSize, offset, len)
    {
      if len == 0 {
        return Ok([]);
      }
      var bs := blockSize;
      var start := offset / bs;
      var end := (offset + len - 1) / bs;
      DivMonotone(offset, offset + len - 1, bs);
      var loaded := LoadBlocks(start, end - start + 1);
      if loaded.Err? {
        return Err(loaded.error);
      }
      var temp := loaded.value;
      CutBytes(cache.disk, bs, offset, len, temp);
      r := Ok(temp[offset % bs..offset % bs + len]);
    }

    /// The loop of `read_at`: blocks `start .. start + count - 1` loaded
    /// through the cache in order, laid end to end.
    method LoadBlocks(start: nat, count: nat) returns (r: Result<seq<byte>>)
      requires Valid()
      modifies cache
      ensures Valid() && cache.disk == old(cache.disk)
      ensures r.Ok? <==> forall k | start <= k < start + count :: k in cache.disk
      ensures r.Err? ==> r.error == OutOfBounds
      ensures r.Ok? ==> r.value == Blocks(cache.disk, start, count)
    {
      var temp: seq<byte> := [];
      for i := 0 to count
        invariant Valid() && cache.disk == old(cache.disk)
        invariant forall k | start <= k < start + i :: k in cache.disk
        invariant temp == Blocks(cache.disk, start, i)
      {
        var data := cache.GetOrLoad(start + i);
        if data.Err? {
          return Err(data.error);
        }
        temp := temp + data.value;
      }
      return Ok(temp);
    }

    /// `read_obj`: reads exactly the object's size in bytes at `offset`
    /// (the bytes are then the object: its layout is plain data).
    method ReadObj(offset: nat, size: nat) returns (r: Result<seq<byte>>)
      requires Valid()
      modifies cache
      ensures Valid() && cache.disk == old(cache.disk)
      ensures r.Ok? ==> BytesPresent(cache.disk, blockSize, offset, size) && r.value == DeviceBytes(cache.disk, blockSize, offset, size)
      ensures size > 0 ==> (r.Ok? <==> BlocksPresent(cache.disk, offset / blockSize, (offset + size - 1) / blockSize))
    {
      r := ReadAt(offset, size);
    }

    /// `write_at`: loads every block the range covers for writing, which
    /// marks each dirty, but never copies `bytes` into them: the cache and
    /// the device are left holding what they held.
    method WriteAt(offset: nat, bytes: seq<byte>) returns (r: Result<()>)
      requires Valid()
      modifies cache
      ensures Valid() && cache.disk == old(cache.disk)
      ensures |bytes| == 0 ==> r == Ok(()) && cache.cache == old(cache.cache)
      ensures |bytes| > 0 ==> (r.Ok? <==> BlocksPresent(cache.disk, offset / blockSize, (offset + |bytes| - 1) / blockSize))
      ensures r.Ok? && |bytes| > 0 ==>
        |cache.cache| > 0 && cache.cache[0].block == (offset + |bytes| - 1) / blockSize && cache.cache[0].dirty
    {
      if |bytes| == 0 {
        return Ok(());
      }
      var bs := blockSize;
      var start := offset / bs;
      var end := (offset + |bytes| - 1) / bs;
      DivMonotone(offset, offset + |bytes| - 1, bs);
      var count := end - start + 1;
      for i := 0 to count
        invariant Valid() && cache.disk == old(cache.disk)
        invariant forall k | start <= k < start + i :: k in cache.disk
        invariant i > 0 ==> |cache.cache| > 0 && cache.cache[0].block == start + i - 1 && cache.cache[0].dirty
      {
        var data := cache.GetOrLoadMut(start + i);
        if data.Err? {
          return Err(data.error);
        }
      }
      return Ok(());
    }

    /// `sync`: the dirty blocks are written to the device and marked clean.
    method Sync() returns (r: Result<()>)
      requires Valid()
      modifies cache
      ensures Valid() && r == Ok(())
      ensures cache.disk == Flushed(old(cache.disk), old(cache.cache))
      ensures cache.cache == Cleaned(old(cache.cache))
    {
      CoherentFlushKeepsDisk(cache.disk, cache.cache);
      cache.WriteDirty();
      assert Coherent(cache.cache, cache.disk);
      return Ok(());
    }
  }

  /// Since writes never change a cached block, a sync writes back only what
  /// the device already holds.
  lemma {:induction false} CoherentFlushKeepsDisk(disk: Disk, entries: seq<CacheEntry>)
    requires Coherent(entries, disk)
    ensures Flushed(disk, entries) == disk
  {
    if |entries| > 0 {
      var n := |entries| - 1;
      assert Coherent(entries[..n], disk) by {
        forall i | 0 <= i < n
          ensures entries[..n][i] == entries[i]
        {
        }
      }
      CoherentFlushKeepsDisk(disk, entries[..n]);
      assert entries[n].block in disk && disk[entries[n].block := entries[n].data] == disk;
    }
  }
}
