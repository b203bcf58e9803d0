/// Pipes: a read end and a write end sharing one ring buffer and one
/// "other side gone" flag, the order in which each end weighs data against
/// a closed peer, and the `pipe2` call that makes the pair.
module Pipes {
  import opened Common
  import KernelBuffer
  import Timer

  const PAGE_SIZE: nat := 4096

  // ---- the inode ----

  datatype FileType = Fifo

  /// A pipe's inode: its number, creation time and owner.
  datatype PipeInode = PipeInode(ino: nat, time: Timer.Duration, uid: nat, gid: nat)

  /// The attributes `getattr` reports.
  datatype PipeAttr = PipeAttr(ino: nat, size: nat, blockSize: nat, blocks: nat,
                               atime: Timer.Duration, btime: Timer.Duration,
                               mtime: Timer.Duration, ctime: Timer.Duration,
                               fileType: FileType, mode: nat, nlinks: nat, uid: nat, gid: nat)

  /// `getattr`: an empty FIFO readable and writable by its owner only, one
  /// page per block, all four times the creation time.
  function GetAttr(inode: PipeInode): (a: PipeAttr)
    ensures a.size == 0 && a.blocks == 0 && a.blockSize == PAGE_SIZE && a.nlinks == 1
    ensures a.fileType == Fifo && a.mode == 0x180
    ensures a.atime == a.btime == a.mtime == a.ctime == inode.time
    ensures a.ino == inode.ino && a.uid == inode.uid && a.gid == inode.gid
  {
    PipeAttr(inode.ino, 0, PAGE_SIZE, 0, inode.time, inode.time, inode.time, inode.time,
             Fifo, 0x180, 1, inode.uid, inode.gid)
  }

  // ---- what each end waits for ----

  datatype ReadStep = ReadProceeds | ReadEof | ReadInterrupted | ReadBlocks

  /// `do_read`'s poll: a read that can complete wins over a gone writer,
  /// which gives end of file; otherwise a signal interrupts the wait.
  function ReadGate(dataReady: bool, writerGone: bool, interrupted: bool): (s: ReadStep)
    ensures s == ReadProceeds <==> dataReady
    ensures s == ReadEof <==> !dataReady && writerGone
    ensures s == ReadInterrupted <==> !dataReady && !writerGone && interrupted
  {
    if dataReady then ReadProceeds
    else if writerGone then ReadEof
    else if interrupted then ReadInterrupted
    else ReadBlocks
  }

  datatype WriteStep = WriteBroken | WriteProceeds | WriteBlocks

  /// `do_write`'s poll: a gone reader is checked first, so nothing is
  /// written once it is gone.
  function WriteGate(readerGone: bool, roomReady: bool): (s: WriteStep)
    ensures s == WriteBroken <==> readerGone
    ensures s == WriteProceeds <==> !readerGone && roomReady
  {
    if readerGone then WriteBroken
    else if roomReady then WriteProceeds
    else WriteBlocks
  }

  // ---- the shared state ----

  /// `PipeInner`: the buffer both ends use and the flag either end's drop
  /// raises.
  class PipeInner {
    const buf: KernelBuffer.KBuf<byte>
    var otherSideGone: bool

    constructor(buf: KernelBuffer.KBuf<byte>)
      ensures this.buf == buf && !otherSideGone
    {
      this.buf := buf;
      otherSideGone := false;
    }
  }

  datatype ReadOutcome = Data(bytes: seq<byte>) | ReadWaits

  /// The read end's `readat`: nothing for zero bytes; otherwise what the
  /// gate says, a read taking as many of the oldest bytes as asked for
  /// and present.
  method Read(inner: PipeInner, count: nat, interrupted: bool) returns (r: Result<ReadOutcome>)
    requires inner.buf.Valid()
    modifies inner.buf
    ensures inner.buf.Valid()
    ensures count == 0 ==> r == Ok(Data([])) && inner.buf.Contents == old(inner.buf.Contents)
    ensures count > 0 ==>
      match ReadGate(old(inner.buf.len) > 0, inner.otherSideGone, interrupted)
      case ReadProceeds =>
        var n := Min(count, old(inner.buf.len));
        r == Ok(Data(old(inner.buf.Contents)[..n])) && inner.buf.Contents == old(inner.buf.Contents)[n..]
      case ReadEof => r == Ok(Data([])) && inner.buf.Contents == old(inner.buf.Contents)
      case ReadInterrupted => r == Err(Interrupted) && inner.buf.Contents == old(inner.buf.Contents)
      case ReadBlocks => r == Ok(ReadWaits) && inner.buf.Contents == old(inner.buf.Contents)
  {
    if count == 0 {
      return Ok(Data([]));
    }
    var step := ReadGate(inner.buf.len > 0, inner.otherSideGone, interrupted);
    match step
    case ReadProceeds =>
      var dst := new byte[count];
      var n := inner.buf.TryPopSlice(dst);
      r := Ok(Data(dst[..n]));
    case ReadEof =>
      r := Ok(Data([]));
    case ReadInterrupted =>
      r := Err(Interrupted);
    case ReadBlocks =>
      r := Ok(ReadWaits);
  }

  datatype WriteOutcome = Written(n: nat) | WriteWaits

  /// The write end's `writeat` of `data`: nothing for zero bytes; a broken
  /// pipe, with SIGPIPE raised, once the reader is gone; otherwise as many
  /// leading bytes as there is room for.
  method Write(inner: PipeInner, data: seq<byte>) returns (r: Result<WriteOutcome>, sigpipe: bool)
    requires inner.buf.Valid()
    modifies inner.buf, inner.buf.storage
    ensures inner.buf.Valid()
    ensures |data| == 0 ==> r == Ok(Written(0)) && !sigpipe && inner.buf.Contents == old(inner.buf.Contents)
    ensures |data| > 0 ==>
      match WriteGate(inner.otherSideGone, old(inner.buf.len) < inner.buf.storage.Length)
      case WriteBroken =>
        r == Err(BrokenPipe) && sigpipe && inner.buf.Contents == old(inner.buf.Contents)
      case WriteProceeds =>
        var n := Min(|data|, inner.buf.storage.Length - old(inner.buf.len));
        r == Ok(Written(n)) && !sigpipe && inner.buf.Contents == old(inner.buf.Contents) + data[..n]
      case WriteBlocks =>
        r == Ok(WriteWaits) && !sigpipe && inner.buf.Contents == old(inner.buf.Contents)
  {
    sigpipe := false;
    if |data| == 0 {
      return Ok(Written(0)), false;
    }
    var step := WriteGate(inner.otherSideGone, inner.buf.len < inner.buf.storage.Length);
    match step
    case WriteBroken =>
      r, sigpipe := Err(BrokenPipe), true;
    case WriteProceeds =>
      var n := inner.buf.TryPushSlice(data);
      r := Ok(Written(n));
    case WriteBlocks =>
      r := Ok(WriteWaits);
  }

  /// Dropping either end tells the other that it is gone.
  method DropEnd(inner: PipeInner)
    modifies inner
    ensures inner.otherSideGone
  {
    inner.otherSideGone := true;
  }

  /// Once the writer is gone a reader still gets every buffered byte
  /// before it sees end of file.
  method DrainThenEof(inner: PipeInner, count: nat) returns (first: Result<ReadOutcome>, second: Result<ReadOutcome>)
    requires inner.buf.Valid() && inner.otherSideGone
    requires 0 < inner.buf.len <= count
    modifies inner.buf
    ensures first == Ok(Data(old(inner.buf.Contents)))
    ensures second == Ok(Data([]))
  {
    ghost var contents := inner.buf.Contents;
    first := Read(inner, count, false);
    assert contents[..|contents|] == contents;
    assert inner.buf.len == 0;
    second := Read(inner, count, false);
  }

  // ---- the two ends as files ----

  datatype End = ReadEnd | WriteEnd

  datatype Op = ReadOp | WriteOp | SeekOp

  /// The operations each end refuses outright: seeking on either end, and
  /// the direction it does not carry.
  function Refused(end: End, op: Op): (e: Option<Error>)
    ensures op == SeekOp ==> e == Some(SeekPipe)
    ensures op != SeekOp ==> (e == Some(BadFd) <==> (end == ReadEnd) != (op == ReadOp))
    ensures e.None? <==> (end == ReadEnd && op == ReadOp) || (end == WriteEnd && op == WriteOp)
  {
    match (end, op)
    case (_, SeekOp) => Some(SeekPipe)
    case (ReadEnd, ReadOp) => None
    case (WriteEnd, WriteOp) => None
    case _ => Some(BadFd)
  }

  /// An open end of a pipe.
  datatype PipeFile = PipeFile(end: End, inner: PipeInner, inode: PipeInode, flags: nat)

  /// The counter pipe inode numbers come from.
  class InodeCounter {
    var next: nat

    constructor()
      ensures next == 0
    {
      next := 0;
    }
  }

  /// `sys_pipe2` up to the descriptor table: a new buffer over `storage`
  /// shared by a read end and a write end, both with the caller's flags
  /// and one new inode stamped with the current date and owner; the read
  /// end comes first, as it is inserted first.
  method Pipe2(counter: InodeCounter, flags: nat, storage: array<byte>, date: Timer.Duration, uid: nat, gid: nat)
    returns (readFile: PipeFile, writeFile: PipeFile)
    requires storage.Length > 0
    modifies counter
    ensures readFile.end == ReadEnd && writeFile.end == WriteEnd
    ensures readFile.inner == writeFile.inner && fresh(readFile.inner)
    ensures readFile.inode == writeFile.inode == PipeInode(old(counter.next), date, uid, gid)
    ensures readFile.flags == flags && writeFile.flags == flags
    ensures readFile.inner.buf.Valid() && readFile.inner.buf.Contents == [] && !readFile.inner.otherSideGone
    ensures counter.next == old(counter.next) + 1
  {
    var buf := new KernelBuffer.KBuf<byte>(storage);
    var inner := new PipeInner(buf);
    var inode := PipeInode(counter.next, date, uid, gid);
    counter.next := counter.next + 1;
    readFile := PipeFile(ReadEnd, inner, inode, flags);
    writeFile := PipeFile(WriteEnd, inner, inode, flags);
  }
}
