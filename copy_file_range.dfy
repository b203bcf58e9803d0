/// `copy_file_range`: argument checks, then a loop that splices from the
/// input file into a kernel pipe and from the pipe into the output file,
/// either through both files' cursors or, when an offset is supplied,
/// through that offset with the cursor saved and restored around each
/// splice.
///
/// The files' splice operations are code this model does not see: each
/// file answers its successive splice calls from a script of results,
/// and once the script is spent it transfers everything asked for.
module CopyFileRange {
  import opened Common

  type I32 = x: int | -0x8000_0000 <= x < 0x8000_0000

  /// What a file's successive splice calls return.
  type Script = seq<Result<nat>>

  /// The next answer of a script to a splice of `count` bytes: a file never
  /// moves more than it was asked for.
  function Answer(s: Script, count: nat): (r: Result<nat>)
    ensures r.Ok? ==> r.value <= count
    ensures s == [] ==> r == Ok(count)
  {
    if s == [] then Ok(count)
    else match s[0]
      case Ok(v) => Ok(Min(v, count))
      case Err(e) => Err(e)
  }

  /// The script after one answer.
  function Rest(s: Script): (t: Script)
    ensures |t| == if s == [] then 0 else |s| - 1
  {
    if s == [] then [] else s[1..]
  }

  /// An open file as the copy sees it: its cursor (`FileCtx::pos`) and the
  /// answers its splice operations give.
  class SpliceFile {
    var pos: nat
    var script: Script

    constructor(pos: nat, script: Script)
      ensures this.pos == pos && this.script == script
    {
      this.pos := pos;
      this.script := script;
    }

    /// `splice_into` / `splice_from` on this file: the next answer, which
    /// moves the cursor past the bytes moved.
    method Splice(count: nat) returns (r: Result<nat>)
      modifies this
      ensures r == Answer(old(script), count)
      ensures script == Rest(old(script))
      ensures pos == if r.Ok? then old(pos) + r.value else old(pos)
    {
      r := Answer(script, count);
      script := Rest(script);
      if r.Ok? {
        pos := pos + r.value;
      }
    }
  }

  /// A user-space offset (`TUA<i32>`), when the caller passes one: its value
  /// and whether reading and writing it succeed.
  class UserOffset {
    var value: I32
    const readable: bool
    const writable: bool

    constructor(value: I32, readable: bool, writable: bool)
      ensures this.value == value && this.readable == readable && this.writable == writable
    {
      this.value := value;
      this.readable := readable;
      this.writable := writable;
    }
  }

  // ---- the checks before any byte moves ----

  datatype Plan =
    | NothingToCopy
    | Cursors(reader: SpliceFile, writer: SpliceFile)
    | Offsets(reader: SpliceFile, writer: SpliceFile, inOff: nat, outOff: nat)

  /// A NULL offset counts as 0; a supplied one is read from user memory
  /// and must not be negative.
  function ReadOffset(off: UserOffset?): (r: Result<nat>)
    reads off
    ensures off == null ==> r == Ok(0)
    ensures off != null && !off.readable ==> r == Err(Fault)
    ensures off != null && off.readable ==> (r.Ok? <==> off.value >= 0)
    ensures r.Ok? && off != null ==> r.value == off.value
    ensures r.Err? ==> r.error in {Fault, InvalidValue}
  {
    if off == null then Ok(0)
    else if !off.readable then Err(Fault)
    else if off.value < 0 then Err(InvalidValue)
    else Ok(off.value)
  }

  /// Everything `sys_copy_file_range` decides before the copy, as written:
  /// non-zero flags, then an empty copy, then the two offsets, then the two
  /// descriptors, then the same file on both sides. Both offsets 0 --
  /// NULL or supplied as 0 -- select the cursor path.
  function PrologueAsWritten(fds: map<int, SpliceFile>, fdIn: int, offIn: UserOffset?, fdOut: int,
                    offOut: UserOffset?, size: nat, flags: nat): (r: Result<Plan>)
    reads offIn, offOut
    ensures flags != 0 ==> r == Err(InvalidValue)
    ensures flags == 0 && size == 0 ==> r == Ok(NothingToCopy)
    ensures r == Ok(NothingToCopy) <==> flags == 0 && size == 0
    ensures flags == 0 && size > 0 && ReadOffset(offIn).Err? ==> r == Err(ReadOffset(offIn).error)
    ensures r == Err(BadFd) <==>
      flags == 0 && size > 0 && ReadOffset(offIn).Ok? && ReadOffset(offOut).Ok? && (fdIn !in fds || fdOut !in fds)
    ensures r.Ok? && !r.value.NothingToCopy? ==>
      fdIn in fds && fdOut in fds && r.value.reader == fds[fdIn] && r.value.writer == fds[fdOut]
      && r.value.reader != r.value.writer
    ensures r.Ok? && r.value.Cursors? <==>
      flags == 0 && size > 0 && fdIn in fds && fdOut in fds && fds[fdIn] != fds[fdOut]
      && ReadOffset(offIn) == Ok(0) && ReadOffset(offOut) == Ok(0)
    ensures r.Ok? && r.value.Offsets? ==>
      Ok(r.value.inOff) == ReadOffset(offIn) && Ok(r.value.outOff) == ReadOffset(offOut)
      && (r.value.inOff > 0 || r.value.outOff > 0)
  {
    if flags != 0 then Err(InvalidValue)
    else if size == 0 then Ok(NothingToCopy)
    else match (ReadOffset(offIn), ReadOffset(offOut))
      case (Err(e), _) => Err(e)
      case (_, Err(e)) => Err(e)
      case (Ok(inOff), Ok(outOff)) =>
        if fdIn !in fds || fdOut !in fds then Err(BadFd)
        else if fds[fdIn] == fds[fdOut] then Err(InvalidValue)
        else if inOff == 0 && outOff == 0 then Ok(Cursors(fds[fdIn], fds[fdOut]))
        else Ok(Offsets(fds[fdIn], fds[fdOut], inOff, outOff))
  }

  /// The same checks with the path chosen as intended: the cursor path
  /// exactly when both offset pointers are NULL, so that supplied offsets,
  /// 0 included, are the ones read from, written at and updated.
  function Prologue(fds: map<int, SpliceFile>, fdIn: int, offIn: UserOffset?, fdOut: int,
                    offOut: UserOffset?, size: nat, flags: nat): (r: Result<Plan>)
    reads offIn, offOut
    ensures flags != 0 ==> r == Err(InvalidValue)
    ensures r == Ok(NothingToCopy) <==> flags == 0 && size == 0
    ensures flags == 0 && size > 0 && ReadOffset(offIn).Err? ==> r == Err(ReadOffset(offIn).error)
    ensures r == Err(BadFd) <==>
      flags == 0 && size > 0 && ReadOffset(offIn).Ok? && ReadOffset(offOut).Ok? && (fdIn !in fds || fdOut !in fds)
    ensures r.Ok? && !r.value.NothingToCopy? ==>
      fdIn in fds && fdOut in fds && r.value.reader == fds[fdIn] && r.value.writer == fds[fdOut]
      && r.value.reader != r.value.writer
    ensures r.Ok? && r.value.Cursors? <==>
      flags == 0 && size > 0 && fdIn in fds && fdOut in fds && fds[fdIn] != fds[fdOut]
      && offIn == null && offOut == null
    ensures r.Ok? && r.value.Offsets? ==>
      Ok(r.value.inOff) == ReadOffset(offIn) && Ok(r.value.outOff) == ReadOffset(offOut)
      && (offIn != null || offOut != null)
  {
    if flags != 0 then Err(InvalidValue)
    else if size == 0 then Ok(NothingToCopy)
    else match (ReadOffset(offIn), ReadOffset(offOut))
      case (Err(e), _) => Err(e)
      case (_, Err(e)) => Err(e)
      case (Ok(inOff), Ok(outOff)) =>
        if fdIn !in fds || fdOut !in fds then Err(BadFd)
        else if fds[fdIn] == fds[fdOut] then Err(InvalidValue)
        else if offIn == null && offOut == null then Ok(Cursors(fds[fdIn], fds[fdOut]))
        else Ok(Offsets(fds[fdIn], fds[fdOut], inOff, outOff))
  }

  /// Offsets supplied as 0 take the cursor path as written, so the copy
  /// reads and writes at the files' positions, moves them, and never
  /// updates the caller's offsets; with the intended choice they take the
  /// offset path.
  lemma ZeroOffsetsUseCursors(fds: map<int, SpliceFile>, fdIn: int, offIn: UserOffset, fdOut: int,
                              offOut: UserOffset, size: nat)
    requires size > 0 && fdIn in fds && fdOut in fds && fds[fdIn] != fds[fdOut]
    requires offIn.readable && offIn.value == 0 && offOut.readable && offOut.value == 0
    ensures PrologueAsWritten(fds, fdIn, offIn, fdOut, offOut, size, 0) == Ok(Cursors(fds[fdIn], fds[fdOut]))
    ensures Prologue(fds, fdIn, offIn, fdOut, offOut, size, 0) == Ok(Offsets(fds[fdIn], fds[fdOut], 0, 0))
  {
  }

  // ---- the copy loop, as a function of the two scripts ----

  /// A failure after `total` bytes were written reports the bytes; one
  /// before reports the failure.
  function Progress(total: nat, e: Error): (r: Result<nat>)
    ensures r.Ok? <==> total > 0
    ensures r.Ok? ==> r.value == total
    ensures r.Err? ==> r.error == e
  {
    if total > 0 then Ok(total) else Err(e)
  }

  datatype Drained = Drained(rest: Script, written: nat, failure: Option<Error>)

  /// The inner loop: splice `toWrite` bytes out of the pipe, `done` already
  /// written in this chunk, until none are left or the writer fails.
  function Drain(outScript: Script, toWrite: nat, done: nat): (d: Drained)
    ensures done <= d.written <= done + toWrite
    ensures d.failure.None? ==> d.written == done + toWrite
    ensures |d.rest| <= |outScript|
    decreases |outScript|, toWrite
  {
    if toWrite == 0 then Drained(outScript, done, None)
    else match Answer(outScript, toWrite)
      case Err(e) => Drained(Rest(outScript), done, Some(e))
      case Ok(w) => Drain(Rest(outScript), toWrite - w, done + w)
  }

  /// Where a copy ended: its result, what is left of both scripts, the bytes
  /// taken from the reader and written to the writer, and the bytes written
  /// when the offsets were last copied back (`settled`).
  datatype Outcome = Outcome(result: Result<nat>, inScript: Script, outScript: Script,
                             taken: nat, written: nat, settled: nat)

  /// How much one chunk asks the reader for: all that remains on the cursor
  /// path, at most the pipe's capacity on the offset path.
  function Ask(chunk: Option<nat>, remaining: nat): (n: nat)
    ensures n <= remaining
    ensures chunk.None? ==> n == remaining
  {
    match chunk
    case None => remaining
    case Some(c) => Min(c, remaining)
  }

  /// The outer loop: chunk by chunk until `remaining` reaches 0, a read
  /// returns 0, a splice fails, or copying an offset back fails
  /// (`backFailure`, on the offset path only).
  function Chunks(inScript: Script, outScript: Script, remaining: nat, taken: nat, written: nat,
                  settled: nat, chunk: Option<nat>, backFailure: Option<Error>): (o: Outcome)
    decreases remaining
  {
    if remaining == 0 then Outcome(Ok(written), inScript, outScript, taken, written, settled)
    else match Answer(inScript, Ask(chunk, remaining))
      case Err(e) => Outcome(Progress(written, e), Rest(inScript), outScript, taken, written, settled)
      case Ok(n) =>
        if n == 0 then Outcome(Ok(written), Rest(inScript), outScript, taken, written, settled)
        else
          var d := Drain(outScript, n, 0);
          if d.failure.Some? then
            Outcome(Progress(written + d.written, d.failure.value), Rest(inScript), d.rest,
                    taken + n, written + d.written, settled)
          else if backFailure.Some? then
            Outcome(Err(backFailure.value), Rest(inScript), d.rest, taken + n, written + n, written + n)
          else Chunks(Rest(inScript), d.rest, remaining - n, taken + n, written + n, written + n,
                      chunk, backFailure)
  }

  /// Where a loop goes from a point with `remaining` bytes left, `total`
  /// written and the offsets last copied back at `total`.
  ghost function Ahead(inScript: Script, outScript: Script, remaining: nat, taken: nat, total: nat,
                       chunk: Option<nat>, backFailure: Option<Error>): Outcome
  {
    Chunks(inScript, outScript, remaining, taken, total, total, chunk, backFailure)
  }

  /// A chunk whose read fails or finds nothing ends the loop.
  lemma ChunkReadEnds(inScript: Script, outScript: Script, remaining: nat, taken: nat, written: nat,
                      chunk: Option<nat>, backFailure: Option<Error>)
    requires remaining > 0
    requires Answer(inScript, Ask(chunk, remaining)).Err? || Answer(inScript, Ask(chunk, remaining)) == Ok(0)
    ensures var a := Answer(inScript, Ask(chunk, remaining));
      Ahead(inScript, outScript, remaining, taken, written, chunk, backFailure) ==
      Outcome(if a.Err? then Progress(written, a.error) else Ok(written), Rest(inScript), outScript,
              taken, written, written)
  {
  }

  /// A chunk whose write fails ends the loop with what was written.
  lemma ChunkWriteFails(inScript: Script, outScript: Script, remaining: nat, taken: nat, written: nat,
                        chunk: Option<nat>, backFailure: Option<Error>, n: nat, rest: Script, done: nat, e: Error)
    requires remaining > 0 && Answer(inScript, Ask(chunk, remaining)) == Ok(n) && n > 0
    requires Drain(outScript, n, 0) == Drained(rest, done, Some(e))
    ensures Ahead(inScript, outScript, remaining, taken, written, chunk, backFailure) ==
      Outcome(Progress(written + done, e), Rest(inScript), rest, taken + n, written + done, written)
  {
  }

  /// One whole chunk of `n` bytes with the offsets copied back: the loop
  /// goes on with the rest.
  lemma ChunkTaken(inScript: Script, outScript: Script, remaining: nat, taken: nat, written: nat,
                   chunk: Option<nat>, backFailure: Option<Error>, n: nat, rest: Script)
    requires remaining > 0 && Answer(inScript, Ask(chunk, remaining)) == Ok(n) && n > 0
    requires Drain(outScript, n, 0) == Drained(rest, n, None) && backFailure.None?
    ensures Ahead(inScript, outScript, remaining, taken, written, chunk, backFailure) ==
      Ahead(Rest(inScript), rest, remaining - n, taken + n, written + n, chunk, backFailure)
  {
  }

  /// One whole chunk of `n` bytes whose offsets cannot be copied back: the
  /// loop stops there.
  lemma ChunkStopped(inScript: Script, outScript: Script, remaining: nat, taken: nat, written: nat,
                     chunk: Option<nat>, backFailure: Option<Error>, n: nat, rest: Script)
    requires remaining > 0 && Answer(inScript, Ask(chunk, remaining)) == Ok(n) && n > 0
    requires Drain(outScript, n, 0) == Drained(rest, n, None) && backFailure.Some?
    ensures Ahead(inScript, outScript, remaining, taken, written, chunk, backFailure) ==
      Outcome(Err(backFailure.value), Rest(inScript), rest, taken + n, written + n, written + n)
  {
  }

  /// The copy of `size` bytes from a fresh start.
  function Copy(inScript: Script, outScript: Script, size: nat, chunk: Option<nat>,
                backFailure: Option<Error>): Outcome
  {
    Chunks(inScript, outScript, size, 0, 0, 0, chunk, backFailure)
  }

  /// The accounting the loop keeps from any point on.
  lemma {:induction false} ChunksAccounting(inScript: Script, outScript: Script, remaining: nat, taken: nat,
                                            written: nat, chunk: Option<nat>, backFailure: Option<Error>)
    requires written <= taken
    ensures var o := Ahead(inScript, outScript, remaining, taken, written, chunk, backFailure);
      && written <= o.settled <= o.written <= o.taken <= taken + remaining
      && (o.result.Ok? ==> o.result.value == o.written)
      && (o.result.Err? && backFailure.None? ==> o.written == written)
      && (o.result.Err? ==> o.written == 0 || backFailure.Some?)
    decreases remaining
  {
    if remaining > 0 {
      match Answer(inScript, Ask(chunk, remaining))
      case Err(e) =>
      case Ok(n) =>
        if n > 0 {
          var d := Drain(outScript, n, 0);
          if d.failure.None? && backFailure.None? {
            ChunksAccounting(Rest(inScript), d.rest, remaining - n, taken + n, written + n, chunk, backFailure);
          }
        }
    }
  }

  /// The copy never writes more than `size` bytes, reports what it wrote,
  /// and reports a splice failure only when nothing was written.
  lemma CopyAccounting(inScript: Script, outScript: Script, size: nat, chunk: Option<nat>,
                       backFailure: Option<Error>)
    ensures var o := Copy(inScript, outScript, size, chunk, backFailure);
      && o.written <= o.taken <= size
      && (o.result.Ok? ==> o.result.value == o.written <= size)
      && (o.result.Err? && backFailure.None? ==> o.written == 0)
  {
    ChunksAccounting(inScript, outScript, size, 0, 0, chunk, backFailure);
  }

  /// A writer that never fails takes each chunk whole.
  lemma {:induction false} DrainSpent(toWrite: nat, done: nat)
    ensures Drain([], toWrite, done) == Drained([], done + toWrite, None)
  {
    if toWrite > 0 {
      DrainSpent(0, done + toWrite);
    }
  }

  /// With files that move everything asked for, every byte is copied.
  lemma {:induction false} ChunksComplete(remaining: nat, taken: nat, written: nat, settled: nat,
                                          chunk: Option<nat>)
    requires chunk.Some? ==> chunk.value > 0
    ensures Chunks([], [], remaining, taken, written, settled, chunk, None).result == Ok(written + remaining)
    decreases remaining
  {
    if remaining > 0 {
      var n := Ask(chunk, remaining);
      DrainSpent(n, 0);
      ChunksComplete(remaining - n, taken + n, written + n, written + n, chunk);
    }
  }

  lemma CopyComplete(size: nat, chunk: Option<nat>)
    requires chunk.Some? ==> chunk.value > 0
    ensures Copy([], [], size, chunk, None).result == Ok(size)
  {
    ChunksComplete(size, 0, 0, 0, chunk);
  }

  /// `u64::saturating_add`.
  function SatAdd(a: nat, b: nat): (s: nat)
    ensures s < U64_LIMIT
    ensures a + b < U64_LIMIT ==> s == a + b
  {
    Min(a + b, U64_LIMIT - 1)
  }

  /// Saturating additions in a row saturate once.
  lemma SatAddTwice(a: nat, b: nat, c: nat)
    ensures SatAdd(SatAdd(a, b), c) == SatAdd(a, b + c)
  {
  }

  /// `as i32`: keeps the low 32 bits, read as two's complement.
  function WrapI32(x: nat): (w: I32)
    ensures x < 0x8000_0000 ==> w == x
    ensures (w - x) % U32_LIMIT == 0
  {
    var low := x % U32_LIMIT;
    if low < 0x8000_0000 then low else low - U32_LIMIT
  }


  // ---- the loops ----

  /// The inner loop of both paths: splice the `n` bytes of a chunk out of
  /// the pipe into the writer until none are left or a splice fails. When
  /// `explicit`, each splice happens at `outOff` with the cursor saved and
  /// restored around it and `outOff` moves on; otherwise the cursor moves.
  method WriteChunk(writer: SpliceFile, n: nat, explicit: bool, outOff: nat)
    returns (done: nat, failure: Option<Error>, newOutOff: nat)
    requires explicit ==> outOff < U64_LIMIT
    modifies writer
    ensures Drain(old(writer.script), n, 0) == Drained(writer.script, done, failure)
    ensures writer.pos == if explicit then old(writer.pos) else old(writer.pos) + done
    ensures newOutOff == if explicit then SatAdd(outOff, done) else outOff
  {
    ghost var script0, pos0 := writer.script, writer.pos;
    var toWrite: nat := n;
    done, failure, newOutOff := 0, None, outOff;
    while toWrite > 0
      invariant done + toWrite == n
      invariant Drain(writer.script, toWrite, done) == Drain(script0, n, 0)
      invariant writer.pos == if explicit then pos0 else pos0 + done
      invariant newOutOff == if explicit then SatAdd(outOff, done) else outOff
      decreases |writer.script|, toWrite
    {
      var savedOut := writer.pos;
      if explicit {
        writer.pos := newOutOff;
      }
      var written := writer.Splice(toWrite);
      if written.Err? {
        writer.pos := savedOut;
        return done, Some(written.error), newOutOff;
      }
      if explicit {
        writer.pos := savedOut;
        SatAddTwice(outOff, done, written.value);
        newOutOff := SatAdd(newOutOff, written.value);
      }
      toWrite := toWrite - written.value;
      done := done + written.value;
    }
  }

  /// How one chunk of a loop ends: the loop goes on after `n` bytes, or
  /// the call returns `result`.
  datatype Step = Continue(n: nat) | Stopped(result: Result<nat>)

  /// One chunk of the cursor path: splice all that remains into the pipe,
  /// then out of it, both through the cursors.
  method CursorChunk(reader: SpliceFile, writer: SpliceFile, remaining: nat, total: nat, ghost taken: nat,
                     ghost target: Outcome)
    returns (step: Step)
    requires reader != writer && remaining > 0
    requires Ahead(reader.script, writer.script, remaining, taken, total, None, None) == target
    modifies reader, writer
    ensures step.Continue? ==> 0 < step.n <= remaining
    ensures step.Continue? ==>
      Ahead(reader.script, writer.script, remaining - step.n, taken + step.n, total + step.n, None, None) == target
    ensures step.Continue? ==> reader.pos == old(reader.pos) + step.n && writer.pos == old(writer.pos) + step.n
    ensures step.Stopped? ==>
        && step.result == target.result && reader.script == target.inScript && writer.script == target.outScript
        && reader.pos == old(reader.pos) + (target.taken - taken) && writer.pos == old(writer.pos) + (target.written - total)
  {
    ghost var chunkIn, chunkOut := reader.script, writer.script;
    var read := reader.Splice(remaining);
    if read.Err? {
      return Stopped(Progress(total, read.error));
    }
    if read.value == 0 {
      return Stopped(Ok(total));
    }
    var done, failure, unused := WriteChunk(writer, read.value, false, 0);
    if failure.Some? {
      return Stopped(Progress(total + done, failure.value));
    }
    ChunkTaken(chunkIn, chunkOut, remaining, taken, total, None, None, read.value, writer.script);
    return Continue(read.value);
  }

  /// The cursor path: each chunk asks for all that remains and goes through
  /// both files' cursors.
  method CursorCopy(reader: SpliceFile, writer: SpliceFile, size: nat) returns (r: Result<nat>)
    requires reader != writer
    modifies reader, writer
    ensures var o := Copy(old(reader.script), old(writer.script), size, None, None);
      && r == o.result
      && reader.script == o.inScript && writer.script == o.outScript
      && reader.pos == old(reader.pos) + o.taken && writer.pos == old(writer.pos) + o.written
  {
    ghost var target := Copy(reader.script, writer.script, size, None, None);
    ghost var readerPos0, writerPos0 := reader.pos, writer.pos;
    var remaining: nat := size;
    var total: nat := 0;
    ghost var taken: nat := 0;
    while remaining > 0
      invariant Ahead(reader.script, writer.script, remaining, taken, total, None, None) == target
      invariant reader.pos == readerPos0 + taken && writer.pos == writerPos0 + total
      decreases remaining
    {
      var step := CursorChunk(reader, writer, remaining, total, taken, target);
      if step.Stopped? {
        return step.result;
      }
      total := total + step.n;
      taken := taken + step.n;
      remaining := remaining - step.n;
    }
    return Ok(total);
  }

  /// The failure copying the offsets back gives, if any: the input offset
  /// is written first.
  function BackFailure(offIn: UserOffset?, offOut: UserOffset?): (f: Option<Error>)
    ensures f.None? <==> (offIn == null || offIn.writable) && (offOut == null || offOut.writable)
    ensures f.Some? ==> f.value == Fault
  {
    if offIn != null && !offIn.writable then Some(Fault)
    else if offOut != null && !offOut.writable then Some(Fault)
    else None
  }

  /// The read half of an offset-path chunk: when `explicit`, the splice
  /// happens at `inOff` and the cursor is put back afterwards.
  method ReadChunk(reader: SpliceFile, count: nat, explicit: bool, inOff: nat) returns (read: Result<nat>)
    modifies reader
    ensures read == Answer(old(reader.script), count)
    ensures reader.script == Rest(old(reader.script))
    ensures reader.pos == if explicit || read.Err? then old(reader.pos) else old(reader.pos) + read.value
  {
    if explicit {
      var saved := reader.pos;
      reader.pos := inOff;
      read := reader.Splice(count);
      reader.pos := saved;
    } else {
      read := reader.Splice(count);
    }
  }

  /// The value of an offset the caller passed (0 for NULL).
  function ValueOf(off: UserOffset?): int
    reads off
  {
    if off == null then 0 else off.value
  }

  /// What the supplied offsets hold once `settled` bytes have been copied
  /// back: each writable one its start advanced by `settled`, as `i32`
  /// (the input offset is written first, so a failure to write it keeps
  /// the output offset from being written); any other its first value.
  ghost predicate CopiedBack(offIn: UserOffset?, offOut: UserOffset?, inStart: nat, outStart: nat,
                             settled: nat, in0: int, out0: int)
    reads offIn, offOut
  {
    && (offIn != null ==>
          offIn.value == if offIn.writable && settled > 0 then WrapI32(SatAdd(inStart, settled)) else in0)
    && (offOut != null ==>
          offOut.value == if offOut.writable && (offIn == null || offIn.writable) && settled > 0
                          then WrapI32(SatAdd(outStart, settled)) else out0)
  }

  /// `copy_to_user` of an offset after a chunk, when one was supplied: it
  /// fails on memory that cannot be written and stores the value as `i32`.
  method StoreOffset(off: UserOffset?, value: nat) returns (stored: bool)
    modifies off
    ensures stored <==> off == null || off.writable
    ensures off != null ==> off.value == if off.writable then WrapI32(value) else old(off.value)
  {
    if off == null {
      return true;
    }
    if !off.writable {
      return false;
    }
    off.value := WrapI32(value);
    return true;
  }

  /// The copy-back after a whole chunk: the input offset, then the output
  /// offset, stopping at the first that cannot be written.
  method StoreOffsets(offIn: UserOffset?, offOut: UserOffset?, inOff: nat, outOff: nat,
                      ghost inStart: nat, ghost outStart: nat, ghost before: nat, ghost settled: nat,
                      ghost in0: int, ghost out0: int)
    returns (stored: bool)
    requires settled > 0 && (before > 0 ==> BackFailure(offIn, offOut).None?)
    requires offIn != null ==> inOff == SatAdd(inStart, settled)
    requires offOut != null ==> outOff == SatAdd(outStart, settled)
    requires offIn == offOut && offIn != null ==> inStart == outStart
    requires CopiedBack(offIn, offOut, inStart, outStart, before, in0, out0)
    modifies offIn, offOut
    ensures stored <==> BackFailure(offIn, offOut).None?
    ensures CopiedBack(offIn, offOut, inStart, outStart, settled, in0, out0)
  {
    stored := StoreOffset(offIn, inOff);
    if stored {
      stored := StoreOffset(offOut, outOff);
    }
  }

  /// The splices of one chunk of the offset path: at most the pipe's
  /// capacity into the pipe and out of it, each side at its offset when
  /// `explicitIn` / `explicitOut`, through its cursor otherwise.
  method OffsetMove(reader: SpliceFile, writer: SpliceFile, explicitIn: bool, explicitOut: bool,
                    capacity: nat, remaining: nat, total: nat, inOff: nat, outOff: nat,
                    ghost taken: nat, ghost backFailure: Option<Error>, ghost target: Outcome)
    returns (step: Step, newInOff: nat, newOutOff: nat)
    requires reader != writer && remaining > 0
    requires explicitOut ==> outOff < U64_LIMIT
    requires Ahead(reader.script, writer.script, remaining, taken, total, Some(capacity), backFailure) == target
    modifies reader, writer
    ensures step.Stopped? ==>
        && step.result == target.result && reader.script == target.inScript && writer.script == target.outScript
        && reader.pos == (if explicitIn then old(reader.pos) else old(reader.pos) + (target.taken - taken))
        && writer.pos == (if explicitOut then old(writer.pos) else old(writer.pos) + (target.written - total))
        && target.settled == total
    ensures step.Continue? ==>
        && 0 < step.n <= remaining
        && Answer(old(reader.script), Ask(Some(capacity), remaining)) == Ok(step.n)
        && reader.script == Rest(old(reader.script))
        && Drain(old(writer.script), step.n, 0) == Drained(writer.script, step.n, None)
        && reader.pos == (if explicitIn then old(reader.pos) else old(reader.pos) + step.n)
        && writer.pos == (if explicitOut then old(writer.pos) else old(writer.pos) + step.n)
        && newInOff == (if explicitIn then SatAdd(inOff, step.n) else inOff)
        && newOutOff == (if explicitOut then SatAdd(outOff, step.n) else outOff)
  {
    ghost var chunkIn, chunkOut := reader.script, writer.script;
    newInOff, newOutOff := inOff, outOff;
    var read := ReadChunk(reader, Min(capacity, remaining), explicitIn, inOff);
    if read.Err? || read.value == 0 {
      ChunkReadEnds(chunkIn, chunkOut, remaining, taken, total, Some(capacity), backFailure);
      return Stopped(if read.Err? then Progress(total, read.error) else Ok(total)), newInOff, newOutOff;
    }
    var done, failure, movedOutOff := WriteChunk(writer, read.value, explicitOut, outOff);
    if failure.Some? {
      ChunkWriteFails(chunkIn, chunkOut, remaining, taken, total, Some(capacity), backFailure, read.value,
                      writer.script, done, failure.value);
      return Stopped(Progress(total + done, failure.value)), newInOff, newOutOff;
    }
    newInOff := if explicitIn then SatAdd(inOff, read.value) else inOff;
    newOutOff := movedOutOff;
    return Continue(read.value), newInOff, newOutOff;
  }

  /// One chunk of the offset path: the splices, then the copy-back of the
  /// offsets.
  method OffsetChunk(reader: SpliceFile, writer: SpliceFile, offIn: UserOffset?, offOut: UserOffset?,
                     inStart: nat, outStart: nat, capacity: nat, remaining: nat, total: nat,
                     inOff: nat, outOff: nat, ghost taken: nat, ghost in0: int, ghost out0: int,
                     ghost target: Outcome)
    returns (step: Step, newInOff: nat, newOutOff: nat)
    requires reader != writer && remaining > 0
    requires Ahead(reader.script, writer.script, remaining, taken, total, Some(capacity),
                   BackFailure(offIn, offOut)) == target
    requires offIn == offOut && offIn != null ==> inStart == outStart
    requires offIn != null ==> inOff == SatAdd(inStart, total)
    requires offOut != null ==> outOff == SatAdd(outStart, total)
    requires CopiedBack(offIn, offOut, inStart, outStart, total, in0, out0)
    requires total > 0 ==> BackFailure(offIn, offOut).None?
    modifies reader, writer, offIn, offOut
    ensures step.Stopped? ==>
        && step.result == target.result && reader.script == target.inScript && writer.script == target.outScript
        && reader.pos == (if offIn == null then old(reader.pos) + (target.taken - taken) else old(reader.pos))
        && writer.pos == (if offOut == null then old(writer.pos) + (target.written - total) else old(writer.pos))
        && CopiedBack(offIn, offOut, inStart, outStart, target.settled, in0, out0)
    ensures step.Continue? ==> 0 < step.n <= remaining && BackFailure(offIn, offOut).None?
    ensures step.Continue? ==>
      Ahead(reader.script, writer.script, remaining - step.n, taken + step.n, total + step.n, Some(capacity),
            BackFailure(offIn, offOut)) == target
    ensures step.Continue? ==>
        && reader.pos == (if offIn == null then old(reader.pos) + step.n else old(reader.pos))
        && writer.pos == (if offOut == null then old(writer.pos) + step.n else old(writer.pos))
        && (offIn != null ==> newInOff == SatAdd(inStart, total + step.n))
        && (offOut != null ==> newOutOff == SatAdd(outStart, total + step.n))
        && CopiedBack(offIn, offOut, inStart, outStart, total + step.n, in0, out0)
  {
    ghost var backFailure := BackFailure(offIn, offOut);
    ghost var chunkIn, chunkOut := reader.script, writer.script;
    step, newInOff, newOutOff := OffsetMove(reader, writer, offIn != null, offOut != null, capacity, remaining,
                                            total, inOff, outOff, taken, backFailure, target);
    if step.Stopped? {
      return;
    }
    SatAddTwice(inStart, total, step.n);
    SatAddTwice(outStart, total, step.n);
    var stored := StoreOffsets(offIn, offOut, newInOff, newOutOff, inStart, outStart, total, total + step.n,
                               in0, out0);
    if !stored {
      ChunkStopped(chunkIn, chunkOut, remaining, taken, total, Some(capacity), backFailure, step.n, writer.script);
      return Stopped(Err(Fault)), newInOff, newOutOff;
    }
    ChunkTaken(chunkIn, chunkOut, remaining, taken, total, Some(capacity), backFailure, step.n, writer.script);
  }

  /// The offset path: chunks of at most the pipe's capacity; a supplied
  /// offset is where that side's splices happen, with the cursor restored
  /// around each one, and it is copied back after every whole chunk; a NULL
  /// one leaves that side on its cursor.
  method OffsetCopy(reader: SpliceFile, writer: SpliceFile, offIn: UserOffset?, offOut: UserOffset?,
                    inStart: nat, outStart: nat, size: nat, capacity: nat) returns (r: Result<nat>)
    requires reader != writer && capacity > 0
    requires offIn != null ==> inStart == offIn.value
    requires offOut != null ==> outStart == offOut.value
    modifies reader, writer, offIn, offOut
    ensures var o := Copy(old(reader.script), old(writer.script), size, Some(capacity),
                          BackFailure(offIn, offOut));
      && r == o.result
      && reader.script == o.inScript && writer.script == o.outScript
      && reader.pos == (if offIn == null then old(reader.pos) + o.taken else old(reader.pos))
      && writer.pos == (if offOut == null then old(writer.pos) + o.written else old(writer.pos))
      && CopiedBack(offIn, offOut, inStart, outStart, o.settled, old(ValueOf(offIn)), old(ValueOf(offOut)))
  {
    ghost var backFailure := BackFailure(offIn, offOut);
    ghost var target := Copy(reader.script, writer.script, size, Some(capacity), backFailure);
    ghost var readerPos0, writerPos0 := reader.pos, writer.pos;
    ghost var in0, out0 := ValueOf(offIn), ValueOf(offOut);
    var inOff: nat := if offIn == null then reader.pos else inStart;
    var outOff: nat := if offOut == null then writer.pos else outStart;
    var remaining: nat := size;
    var total: nat := 0;
    ghost var taken: nat := 0;
    while remaining > 0
      invariant Ahead(reader.script, writer.script, remaining, taken, total, Some(capacity), backFailure) == target
      invariant reader.pos == if offIn == null then readerPos0 + taken else readerPos0
      invariant writer.pos == if offOut == null then writerPos0 + total else writerPos0
      invariant offIn != null ==> inOff == SatAdd(inStart, total)
      invariant offOut != null ==> outOff == SatAdd(outStart, total)
      invariant CopiedBack(offIn, offOut, inStart, outStart, total, in0, out0)
      invariant total > 0 ==> backFailure.None?
      decreases remaining
    {
      var step;
      step, inOff, outOff := OffsetChunk(reader, writer, offIn, offOut, inStart, outStart, capacity, remaining,
                                         total, inOff, outOff, taken, in0, out0, target);
      if step.Stopped? {
        return step.result;
      }
      total := total + step.n;
      taken := taken + step.n;
      remaining := remaining - step.n;
    }
    return Ok(total);
  }

  /// `sys_copy_file_range`: the checks, then the cursor path when both
  /// offset pointers are NULL and the offset path otherwise (the intended
  /// choice; see `PrologueAsWritten`).
  method SysCopyFileRange(fds: map<int, SpliceFile>, fdIn: int, offIn: UserOffset?, fdOut: int,
                          offOut: UserOffset?, size: nat, flags: nat, capacity: nat)
    returns (r: Result<nat>)
    requires capacity > 0
    modifies fds.Values, offIn, offOut
    ensures match old(Prologue(fds, fdIn, offIn, fdOut, offOut, size, flags))
      case Err(e) => r == Err(e)
      case Ok(NothingToCopy) => r == Ok(0)
      case Ok(Cursors(reader, writer)) =>
        var o := Copy(old(reader.script), old(writer.script), size, None, None);
        r == o.result && reader.pos == old(reader.pos) + o.taken && writer.pos == old(writer.pos) + o.written
      case Ok(Offsets(reader, writer, inOff, outOff)) =>
        var o := Copy(old(reader.script), old(writer.script), size, Some(capacity),
                      BackFailure(offIn, offOut));
        r == o.result
        && reader.pos == (if offIn == null then old(reader.pos) + o.taken else old(reader.pos))
        && writer.pos == (if offOut == null then old(writer.pos) + o.written else old(writer.pos))
        && CopiedBack(offIn, offOut, inOff, outOff, o.settled, old(ValueOf(offIn)), old(ValueOf(offOut)))
  {
    var plan := Prologue(fds, fdIn, offIn, fdOut, offOut, size, flags);
    match plan
    case Err(e) =>
      r := Err(e);
    case Ok(NothingToCopy) =>
      r := Ok(0);
    case Ok(Cursors(reader, writer)) =>
      r := CursorCopy(reader, writer, size);
    case Ok(Offsets(reader, writer, inOff, outOff)) =>
      r := OffsetCopy(reader, writer, offIn, offOut, inOff, outOff, size, capacity);
  }
}
