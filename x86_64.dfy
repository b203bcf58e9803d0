/// The x86-64 architecture layer: the model-specific registers written to
/// enable `syscall`, the page-by-page copies between kernel buffers and
/// user memory, and the lookup of the initial RAM disk in the multiboot
/// information.
module X86 {
  import opened Common

  const PAGE_SIZE: nat := 4096

  // ---------------------------------------------------------------------
  // Model-specific registers

  const MSR_EFER: nat := 0xC000_0080
  const MSR_STAR: nat := 0xC000_0081
  const MSR_LSTAR: nat := 0xC000_0082
  const MSR_FMASK: nat := 0xC000_0084

  const STAR_VALUE: bv64 := (0x08 << 32) | (0x10 << 48)
  const FMASK_VALUE: bv64 := 0x200

  /// The halves `wrmsr` puts in eax and edx.
  function SplitMsr(value: bv64): (halves: (bv32, bv32))
  {
    ((value & 0xFFFF_FFFF) as bv32, (value >> 32) as bv32)
  }

  /// The value `rdmsr` assembles from eax and edx.
  function JoinMsr(low: bv32, high: bv32): bv64
  {
    ((high as bv64) << 32) | (low as bv64)
  }

  /// Splitting a value over eax and edx and joining the halves gives it
  /// back, so a register reads as it was written.
  lemma JoinSplit(value: bv64)
    ensures JoinMsr(SplitMsr(value).0, SplitMsr(value).1) == value
  {
    var lo := (value & 0xFFFF_FFFF) as bv32;
    var hi := (value >> 32) as bv32;
    assert (lo as bv64) == value & 0xFFFF_FFFF;
    assert (hi as bv64) << 32 == value & 0xFFFF_FFFF_0000_0000;
  }

  /// The model-specific registers; one never written reads as zero.
  class MsrFile {
    var regs: map<nat, bv64>

    function Read(msr: nat): bv64
      reads this
    {
      if msr in regs then regs[msr] else 0
    }

    /// `enable_syscalls`: EFER gains the system-call enable bit and keeps
    /// the rest; LSTAR gets the entry point; STAR the kernel and user
    /// selector bases; FMASK clears the interrupt flag on entry. No other
    /// register changes.
    method EnableSyscalls(syscallEntry: bv64)
      modifies this
      ensures Read(MSR_EFER) == old(Read(MSR_EFER)) | 1
      ensures Read(MSR_LSTAR) == syscallEntry
      ensures Read(MSR_STAR) == STAR_VALUE
      ensures Read(MSR_FMASK) == FMASK_VALUE
      ensures forall m :: m !in {MSR_EFER, MSR_LSTAR, MSR_STAR, MSR_FMASK} ==> Read(m) == old(Read(m))
    {
      var efer := Read(MSR_EFER);
      efer := efer | 1;
      regs := regs[MSR_EFER := efer];
      regs := regs[MSR_LSTAR := syscallEntry];
      regs := regs[MSR_STAR := STAR_VALUE];
      regs := regs[MSR_FMASK := FMASK_VALUE];
    }
  }

  /// STAR holds kernel selector 0x08 in bits 32 to 47 and user selector
  /// base 0x10 in bits 48 to 63, and nothing below; FMASK masks the
  /// interrupt flag and not the direction flag.
  lemma SyscallMsrFields()
    ensures (STAR_VALUE >> 32) & 0xFFFF == 0x08
    ensures STAR_VALUE >> 48 == 0x10
    ensures STAR_VALUE & 0xFFFF_FFFF == 0
    ensures FMASK_VALUE & 0x200 != 0 && FMASK_VALUE & 0x400 == 0
  {
  }

  // ---------------------------------------------------------------------
  // Page-sized chunks

  function PageOf(a: nat): nat {
    a / PAGE_SIZE
  }

  /// An address below the end of the page `cur` is in is on that page.
  lemma SamePage(cur: nat, a: nat)
    requires cur <= a < cur - cur % PAGE_SIZE + PAGE_SIZE
    ensures PageOf(a) == PageOf(cur)
  {
    var q := cur / PAGE_SIZE;
    var r := cur % PAGE_SIZE;
    assert a == q * PAGE_SIZE + (r + (a - cur));
    DivAdd(q, PAGE_SIZE, r + (a - cur));
  }

  /// The length of the copy that starts at `cur` with `remaining` bytes to
  /// go: up to the end of the page, and no further than what remains.
  function ChunkLen(cur: nat, remaining: nat): (n: nat)
    ensures n <= remaining && (remaining > 0 ==> n > 0)
    ensures forall a :: cur <= a < cur + n ==> PageOf(a) == PageOf(cur)
    ensures n < remaining ==> (cur + n) % PAGE_SIZE == 0 && PageOf(cur + n) == PageOf(cur) + 1
  {
    ChunkFacts(cur, Min(remaining, PAGE_SIZE - cur % PAGE_SIZE), remaining);
    Min(remaining, PAGE_SIZE - cur % PAGE_SIZE)
  }

  lemma ChunkFacts(cur: nat, n: nat, remaining: nat)
    requires n == Min(remaining, PAGE_SIZE - cur % PAGE_SIZE)
    ensures forall a :: cur <= a < cur + n ==> PageOf(a) == PageOf(cur)
    ensures n < remaining ==> (cur + n) % PAGE_SIZE == 0 && PageOf(cur + n) == PageOf(cur) + 1
  {
    forall a | cur <= a < cur + n
      ensures PageOf(a) == PageOf(cur)
    {
      SamePage(cur, a);
    }
    if n < remaining {
      assert cur + n == (cur / PAGE_SIZE + 1) * PAGE_SIZE;
      DivAdd(cur / PAGE_SIZE + 1, PAGE_SIZE, 0);
    }
  }

  /// The chunk lengths a copy of `remaining` bytes from `cur` is cut into.
  function Chunks(cur: nat, remaining: nat): (cs: seq<nat>)
    decreases remaining
  {
    if remaining == 0 then []
    else var n := ChunkLen(cur, remaining); [n] + Chunks(cur + n, remaining - n)
  }

  function Sum(s: seq<nat>): nat {
    if |s| == 0 then 0 else s[0] + Sum(s[1..])
  }

  /// The chunks add up to the whole length, none is empty, and only the
  /// first can start inside a page: every later one starts on a page
  /// boundary. A zero-length copy has no chunks at all.
  lemma {:induction false} ChunksCover(cur: nat, remaining: nat)
    ensures Sum(Chunks(cur, remaining)) == remaining
    ensures forall i :: 0 <= i < |Chunks(cur, remaining)| ==> Chunks(cur, remaining)[i] > 0
    ensures remaining == 0 <==> Chunks(cur, remaining) == []
    ensures forall i :: 0 < i < |Chunks(cur, remaining)| ==> (cur + Sum(Chunks(cur, remaining)[..i])) % PAGE_SIZE == 0
    decreases remaining
  {
    if remaining > 0 {
      var n := ChunkLen(cur, remaining);
      var rest := Chunks(cur + n, remaining - n);
      ChunksCover(cur + n, remaining - n);
      var cs := Chunks(cur, remaining);
      assert cs == [n] + rest;
      forall i | 0 < i < |cs|
        ensures (cur + Sum(cs[..i])) % PAGE_SIZE == 0
      {
        assert cs[..i] == [n] + rest[..i - 1];
        assert Sum(cs[..i]) == n + Sum(rest[..i - 1]);
        if i == 1 {
          assert rest[..0] == [];
          assert n < remaining;
        }
      }
    }
  }

  // ---------------------------------------------------------------------
  // User memory

  /// Whether `getPage` hands over the page holding `a`.
  predicate PageOk(getPage: nat -> Option<Error>, a: nat) {
    getPage(PageOf(a)).None?
  }

  /// The first address in `[start, start + n)` whose page cannot be had.
  function FirstBad(getPage: nat -> Option<Error>, start: nat, n: nat): (r: Option<nat>)
    ensures r.None? <==> forall a :: start <= a < start + n ==> PageOk(getPage, a)
    ensures r.Some? ==> start <= r.value < start + n && !PageOk(getPage, r.value)
    ensures r.Some? ==> forall a :: start <= a < r.value ==> PageOk(getPage, a)
    decreases n
  {
    if n == 0 then None
    else if !PageOk(getPage, start) then Some(start)
    else FirstBad(getPage, start + 1, n - 1)
  }

  /// What a copy over `[start, start + n)` returns: success when every
  /// page can be had, otherwise the error for the first one that cannot.
  function Outcome(getPage: nat -> Option<Error>, start: nat, n: nat): (r: Result<()>)
    ensures r.Ok? <==> forall a :: start <= a < start + n ==> PageOk(getPage, a)
  {
    match FirstBad(getPage, start, n)
    case None => Ok(())
    case Some(a) => Err(getPage(PageOf(a)).value)
  }

  /// With every address before `start + k` fine and the one there not,
  /// the copy fails there, whatever lies beyond.
  lemma FailsAt(getPage: nat -> Option<Error>, start: nat, k: nat, n: nat)
    requires k < n && !PageOk(getPage, start + k)
    requires forall a :: start <= a < start + k ==> PageOk(getPage, a)
    ensures FirstBad(getPage, start, n) == Some(start + k)
  {
  }

  function Byte(bytes: map<nat, byte>, a: nat): byte {
    if a in bytes then bytes[a] else 0
  }

  /// The `n` bytes of user memory from `start`.
  function UserBytes(bytes: map<nat, byte>, start: nat, n: nat): (s: seq<byte>)
    ensures |s| == n && forall i :: 0 <= i < n ==> s[i] == Byte(bytes, start + i)
  {
    var s := seq(n, i requires 0 <= i < n => Byte(bytes, start + i) as int);
    assert forall i :: 0 <= i < n ==> s[i] == Byte(bytes, start + i);
    s
  }

  /// User memory after `data` is stored from `start`.
  function Store(bytes: map<nat, byte>, start: nat, data: seq<byte>): map<nat, byte>
    decreases |data|
  {
    if |data| == 0 then bytes else Store(bytes[start := data[0]], start + 1, data[1..])
  }

  /// A store changes exactly the bytes it covers.
  lemma {:induction false} StoreReads(bytes: map<nat, byte>, start: nat, data: seq<byte>, a: nat)
    ensures Byte(Store(bytes, start, data), a) == if start <= a < start + |data| then data[a - start] else Byte(bytes, a)
    decreases |data|
  {
    if |data| > 0 {
      StoreReads(bytes[start := data[0]], start + 1, data[1..], a);
    }
  }

  /// Storing two adjacent pieces is storing them joined.
  lemma {:induction false} StoreAppend(bytes: map<nat, byte>, start: nat, x: seq<byte>, y: seq<byte>)
    ensures Store(Store(bytes, start, x), start + |x|, y) == Store(bytes, start, x + y)
    decreases |x|
  {
    if |x| > 0 {
      StoreAppend(bytes[start := x[0]], start + 1, x[1..], y);
      assert (x + y)[0] == x[0] && (x + y)[1..] == x[1..] + y;
      assert Store(bytes, start, x + y) == Store(bytes[start := x[0]], start + 1, x[1..] + y);
      assert Store(bytes, start, x) == Store(bytes[start := x[0]], start + 1, x[1..]);
    } else {
      assert x + y == y;
    }
  }

  /// What was stored reads back.
  lemma StoreThenRead(bytes: map<nat, byte>, start: nat, data: seq<byte>)
    ensures UserBytes(Store(bytes, start, data), start, |data|) == data
  {
    forall i | 0 <= i < |data|
      ensures UserBytes(Store(bytes, start, data), start, |data|)[i] == data[i]
    {
      StoreReads(bytes, start, data, start + i);
    }
  }

  /// The user's memory: its bytes, and the readable pages its page tables
  /// translate (page number to whether reading is allowed).
  class UserMemory {
    var bytes: map<nat, byte>
    var translation: map<nat, bool>

    constructor(bytes: map<nat, byte>, translation: map<nat, bool>)
      ensures this.bytes == bytes && this.translation == translation
    {
      this.bytes := bytes;
      this.translation := translation;
    }
  }

  /// The page lookup `try_copy_from_user` makes without sleeping: a page
  /// is had when it is translated and readable, and is a fault otherwise.
  function TranslateForRead(translation: map<nat, bool>): (f: nat -> Option<Error>)
    ensures forall p :: f(p).None? <==> p in translation && translation[p]
    ensures forall p :: f(p).Some? ==> f(p).value == Fault
  {
    p => if p in translation && translation[p] then None else Some(Fault)
  }

  /// A copied prefix grows by the chunk copied after it.
  lemma PrefixGrows(d: seq<byte>, bytes: map<nat, byte>, src: nat, done: nat, m: nat)
    requires done + m <= |d|
    requires d[..done] == UserBytes(bytes, src, done)
    requires d[done..done + m] == UserBytes(bytes, src + done, m)
    ensures d[..done + m] == UserBytes(bytes, src, done + m)
  {
    assert d[..done + m] == d[..done] + d[done..done + m];
  }

  /// The pages had so far, and the page of the chunk at `src + done`,
  /// cover everything up to the end of that chunk.
  lemma PagesGrow(getPage: nat -> Option<Error>, src: nat, done: nat, remaining: nat, m: nat)
    requires m <= ChunkLen(src + done, remaining) && PageOk(getPage, src + done)
    requires forall a :: src <= a < src + done ==> PageOk(getPage, a)
    ensures forall a :: src <= a < src + done + m ==> PageOk(getPage, a)
  {
    assert forall a :: src + done <= a < src + done + m ==> PageOf(a) == PageOf(src + done);
  }

  /// Bytes left alone beyond a chunk stay as they were before the copy
  /// began.
  lemma TailKept(orig: seq<byte>, before: seq<byte>, after: seq<byte>, done: nat, m: nat)
    requires done + m <= |orig| == |before| == |after|
    requires before[done..] == orig[done..] && after[done + m..] == before[done + m..]
    ensures after[done + m..] == orig[done + m..]
  {
    assert before[done + m..] == before[done..][m..];
    assert orig[done + m..] == orig[done..][m..];
  }

  /// One chunk of a copy into the kernel: `n` user bytes from `cur` go to
  /// `dst` from `at`.
  method CopyChunkIn(bytes: map<nat, byte>, cur: nat, dst: array<byte>, at: nat, n: nat)
    requires at + n <= dst.Length
    modifies dst
    ensures dst[..at] == old(dst[..at]) && dst[at + n..] == old(dst[at + n..])
    ensures dst[at..at + n] == UserBytes(bytes, cur, n)
  {
    forall i | at <= i < at + n {
      dst[i] := Byte(bytes, cur + i - at);
    }
  }

  /// One chunk of `copy_from_user`, `done` bytes in: the page of the
  /// chunk is looked up and, when it is had, the chunk copied.
  method CopyInChunk(getPage: nat -> Option<Error>, bytes: map<nat, byte>, src: nat, dst: array<byte>,
                     len: nat, done: nat)
    returns (n: nat, failure: Option<Error>)
    requires done < len <= dst.Length
    requires forall a :: src <= a < src + done ==> PageOk(getPage, a)
    requires dst[..done] == UserBytes(bytes, src, done)
    modifies dst
    ensures n == ChunkLen(src + done, len - done)
    ensures failure.Some? ==>
      FirstBad(getPage, src, len) == Some(src + done) && failure.value == Outcome(getPage, src, len).error
      && dst[..] == old(dst[..])
    ensures failure.None? ==>
      && (forall a :: src <= a < src + done + n ==> PageOk(getPage, a))
      && dst[..done + n] == UserBytes(bytes, src, done + n) && dst[done + n..] == old(dst[done + n..])
  {
    var cur := src + done;
    n := ChunkLen(cur, len - done);
    var page := getPage(PageOf(cur));
    if page.Some? {
      FailsAt(getPage, src, done, len);
      return n, page;
    }
    CopyChunkIn(bytes, cur, dst, done, n);
    PrefixGrows(dst[..], bytes, src, done, n);
    PagesGrow(getPage, src, done, len - done, n);
    failure := None;
  }

  /// `copy_from_user` of `len` bytes from `src` into `dst`, page by page,
  /// `getPage` being the lookup (with fault handling) of a page for
  /// reading. It copies everything and succeeds when every page can be
  /// had; otherwise it fails with the error of the first page that
  /// cannot, having copied only the bytes before it. The pages looked up
  /// are those the chunks start in, one per chunk in increasing order,
  /// and none at all for a zero length.
  method CopyFromUser(getPage: nat -> Option<Error>, bytes: map<nat, byte>, src: nat, dst: array<byte>, len: nat)
    returns (r: Result<()>, ghost lookups: seq<nat>)
    requires len <= dst.Length
    modifies dst
    ensures r == Outcome(getPage, src, len)
    ensures r.Ok? ==> dst[..len] == UserBytes(bytes, src, len) && dst[len..] == old(dst[len..])
    ensures r.Err? ==> var k := FirstBad(getPage, src, len).value - src;
      dst[..k] == UserBytes(bytes, src, k) && dst[k..] == old(dst[k..])
    ensures len == 0 ==> lookups == [] && r == Ok(())
    ensures forall i :: 0 < i < |lookups| ==> lookups[i - 1] < lookups[i]
  {
    var done: nat := 0;
    lookups := [];
    while done < len
      invariant done <= len
      invariant forall a :: src <= a < src + done ==> PageOk(getPage, a)
      invariant dst[..done] == UserBytes(bytes, src, done) && dst[done..] == old(dst[done..])
      invariant forall i :: 0 < i < |lookups| ==> lookups[i - 1] < lookups[i]
      invariant |lookups| > 0 && done < len ==> lookups[|lookups| - 1] < PageOf(src + done)
      invariant len == 0 ==> lookups == []
    {
      ghost var before := dst[..];
      lookups := lookups + [PageOf(src + done)];
      var n, failure := CopyInChunk(getPage, bytes, src, dst, len, done);
      if failure.Some? {
        return Err(failure.value), lookups;
      }
      TailKept(old(dst[..]), before, dst[..], done, n);
      done := done + n;
    }
    r := Ok(());
  }

  /// `try_copy_from_user`: the same page-by-page copy, each page being
  /// looked up in the page tables without sleeping; an untranslated page
  /// or one without read permission is a fault.
  method TryCopyFromUser(mem: UserMemory, src: nat, dst: array<byte>, len: nat) returns (r: Result<()>)
    requires len <= dst.Length
    modifies dst
    ensures r.Ok? <==> forall a :: src <= a < src + len ==> PageOf(a) in mem.translation && mem.translation[PageOf(a)]
    ensures r.Err? ==> r.error == Fault
    ensures r.Ok? ==> dst[..len] == UserBytes(mem.bytes, src, len) && dst[len..] == old(dst[len..])
  {
    var lookup := TranslateForRead(mem.translation);
    ghost var lookups;
    r, lookups := CopyFromUser(lookup, mem.bytes, src, dst, len);
    assert forall a :: PageOk(lookup, a) <==> PageOf(a) in mem.translation && mem.translation[PageOf(a)];
  }

  /// `copy_to_user` of the first `len` bytes of `src` to `dst`, page by
  /// page, `getPage` being the lookup of a page for writing: the bytes are
  /// stored up to the first page that cannot be had, and the outcome is as
  /// for a copy in.
  method CopyToUser(getPage: nat -> Option<Error>, mem: UserMemory, src: seq<byte>, dst: nat, len: nat)
    returns (r: Result<()>)
    requires len <= |src|
    modifies mem
    ensures r == Outcome(getPage, dst, len)
    ensures mem.translation == old(mem.translation)
    ensures r.Ok? ==> mem.bytes == Store(old(mem.bytes), dst, src[..len])
    ensures r.Err? ==> mem.bytes == Store(old(mem.bytes), dst, src[..FirstBad(getPage, dst, len).value - dst])
  {
    var remaining := len;
    var cur := dst;
    var done: nat := 0;
    assert src[..0] == [];
    while remaining > 0
      invariant done <= len && remaining == len - done && cur == dst + done
      invariant forall a :: dst <= a < cur ==> PageOk(getPage, a)
      invariant mem.translation == old(mem.translation)
      invariant mem.bytes == Store(old(mem.bytes), dst, src[..done])
    {
      var n := ChunkLen(cur, remaining);
      var page := getPage(PageOf(cur));
      if page.Some? {
        FailsAt(getPage, dst, done, len);
        return Err(page.value);
      }
      StoreAppend(old(mem.bytes), dst, src[..done], src[done..done + n]);
      assert src[..done] + src[done..done + n] == src[..done + n];
      mem.bytes := Store(mem.bytes, cur, src[done..done + n]);
      remaining := remaining - n;
      cur := cur + n;
      done := done + n;
    }
    r := Ok(());
  }

  /// The offset of the first NUL among the `n` user bytes from `start`.
  function FirstNul(bytes: map<nat, byte>, start: nat, n: nat): (r: Option<nat>)
    ensures r.Some? ==> r.value < n && Byte(bytes, start + r.value) == 0
    ensures r.Some? ==> forall a :: start <= a < start + r.value ==> Byte(bytes, a) != 0
    ensures r.None? ==> forall a :: start <= a < start + n ==> Byte(bytes, a) != 0
    decreases n
  {
    if n == 0 then None
    else if Byte(bytes, start) == 0 then Some(0)
    else match FirstNul(bytes, start + 1, n - 1)
      case None => None
      case Some(k) => Some(k + 1)
  }

  /// How many bytes a string copy of at most `len` bytes from `src` takes:
  /// up to and including the first NUL, or all `len` without one.
  function StrnLen(bytes: map<nat, byte>, src: nat, len: nat): (n: nat)
    ensures n <= len
    ensures forall a :: src <= a < src + n - 1 ==> Byte(bytes, a) != 0
    ensures n < len ==> n > 0 && Byte(bytes, src + n - 1) == 0
  {
    match FirstNul(bytes, src, len)
    case None => len
    case Some(k) => k + 1
  }

  /// The position of the first NUL in a chunk, found by scanning it.
  method FindNul(bytes: map<nat, byte>, cur: nat, n: nat) returns (pos: Option<nat>)
    ensures pos == FirstNul(bytes, cur, n)
  {
    var i: nat := 0;
    while i < n
      invariant i <= n
      invariant forall a :: cur <= a < cur + i ==> Byte(bytes, a) != 0
    {
      if Byte(bytes, cur + i) == 0 {
        NulAt(bytes, cur, i, n);
        return Some(i);
      }
      i := i + 1;
    }
    NoNul(bytes, cur, n);
    pos := None;
  }

  lemma NulAt(bytes: map<nat, byte>, start: nat, i: nat, n: nat)
    requires i < n && Byte(bytes, start + i) == 0
    requires forall a :: start <= a < start + i ==> Byte(bytes, a) != 0
    ensures FirstNul(bytes, start, n) == Some(i)
  {
  }

  lemma NoNul(bytes: map<nat, byte>, start: nat, n: nat)
    requires forall a :: start <= a < start + n ==> Byte(bytes, a) != 0
    ensures FirstNul(bytes, start, n) == None
  {
  }

  datatype Step = Continue(n: nat) | Stopped(r: Result<nat>)

  /// One chunk of `copy_strn_from_user`, `done` bytes in: the page is
  /// looked up, the chunk scanned for a NUL, and the chunk, or the part of
  /// it up to and including the NUL, copied.
  method StrnChunk(getPage: nat -> Option<Error>, bytes: map<nat, byte>, src: nat, dst: array<byte>,
                   len: nat, done: nat)
    returns (step: Step)
    requires done < len <= dst.Length
    requires forall a :: src <= a < src + done ==> PageOk(getPage, a)
    requires forall a :: src <= a < src + done ==> Byte(bytes, a) != 0
    requires dst[..done] == UserBytes(bytes, src, done)
    modifies dst
    ensures step.Continue? ==>
      var m := done + step.n;
      && done < m <= len
      && (forall a :: src <= a < src + m ==> PageOk(getPage, a))
      && (forall a :: src <= a < src + m ==> Byte(bytes, a) != 0)
      && dst[..m] == UserBytes(bytes, src, m) && dst[m..] == old(dst[m..])
    ensures step.Stopped? ==>
      var n := StrnLen(bytes, src, len);
      && (Outcome(getPage, src, n).Ok? ==> step.r == Ok(n) && dst[..n] == UserBytes(bytes, src, n))
      && (Outcome(getPage, src, n).Err? ==> step.r == Err(Outcome(getPage, src, n).error))
      && (step.r.Ok? ==> dst[step.r.value..] == old(dst[step.r.value..]))
  {
    var cur := src + done;
    var n := ChunkLen(cur, len - done);
    var page := getPage(PageOf(cur));
    if page.Some? {
      StrnPast(bytes, src, done, len);
      FailsAt(getPage, src, done, StrnLen(bytes, src, len));
      return Stopped(Err(page.value));
    }
    step := StrnCopy(getPage, bytes, src, dst, len, done, n);
  }

  /// The copying half of a chunk whose page is at hand: up to and
  /// including a NUL when the chunk has one, the whole chunk otherwise.
  method StrnCopy(getPage: nat -> Option<Error>, bytes: map<nat, byte>, src: nat, dst: array<byte>,
                  len: nat, done: nat, n: nat)
    returns (step: Step)
    requires done < len <= dst.Length && n == ChunkLen(src + done, len - done)
    requires PageOk(getPage, src + done)
    requires forall a :: src <= a < src + done ==> PageOk(getPage, a)
    requires forall a :: src <= a < src + done ==> Byte(bytes, a) != 0
    requires dst[..done] == UserBytes(bytes, src, done)
    modifies dst
    ensures step.Continue? ==>
      var m := done + step.n;
      && done < m <= len
      && (forall a :: src <= a < src + m ==> PageOk(getPage, a))
      && (forall a :: src <= a < src + m ==> Byte(bytes, a) != 0)
      && dst[..m] == UserBytes(bytes, src, m) && dst[m..] == old(dst[m..])
    ensures step.Stopped? ==>
      && step.r.Ok? && step.r.value == StrnLen(bytes, src, len)
      && (forall a :: src <= a < src + step.r.value ==> PageOk(getPage, a))
      && dst[..step.r.value] == UserBytes(bytes, src, step.r.value)
      && dst[step.r.value..] == old(dst[step.r.value..])
  {
    var cur := src + done;
    var pos := FindNul(bytes, cur, n);
    var m := if pos.Some? then pos.value + 1 else n;
    CopyChunkIn(bytes, cur, dst, done, m);
    PrefixGrows(dst[..], bytes, src, done, m);
    PagesGrow(getPage, src, done, len - done, m);
    if pos.Some? {
      StrnEnds(bytes, src, done + pos.value, len);
      return Stopped(Ok(done + m));
    }
    step := Continue(n);
  }

  /// `copy_strn_from_user` of at most `len` bytes from `src` into `dst`:
  /// a copy in of `StrnLen` bytes, returning that count, so it stops after
  /// the first NUL and takes all `len` bytes when there is none.
  method CopyStrnFromUser(getPage: nat -> Option<Error>, bytes: map<nat, byte>, src: nat, dst: array<byte>, len: nat)
    returns (r: Result<nat>)
    requires len <= dst.Length
    modifies dst
    ensures var n := StrnLen(bytes, src, len);
      && (Outcome(getPage, src, n).Ok? ==> r == Ok(n) && dst[..n] == UserBytes(bytes, src, n))
      && (Outcome(getPage, src, n).Err? ==> r == Err(Outcome(getPage, src, n).error))
    ensures r.Ok? ==> dst[r.value..] == old(dst[r.value..])
  {
    var remaining := len;
    var done: nat := 0;
    while remaining > 0
      invariant done <= len && remaining == len - done
      invariant forall a :: src <= a < src + done ==> PageOk(getPage, a)
      invariant forall a :: src <= a < src + done ==> Byte(bytes, a) != 0
      invariant dst[..done] == UserBytes(bytes, src, done) && dst[done..] == old(dst[done..])
    {
      ghost var before := dst[..];
      var step := StrnChunk(getPage, bytes, src, dst, len, done);
      match step
      case Stopped(res) =>
        assert res.Ok? ==> dst[res.value..] == before[res.value..];
        return res;
      case Continue(n) =>
        assert dst[done + n..] == before[done + n..];
        remaining := remaining - n;
        done := done + n;
    }
    StrnPast(bytes, src, len, len);
    r := Ok(done);
  }

  /// With no NUL in the first `k` bytes, a string copy takes at least
  /// `k` bytes, and more when `k` falls short of the limit.
  lemma StrnPast(bytes: map<nat, byte>, src: nat, k: nat, len: nat)
    requires k <= len && forall a :: src <= a < src + k ==> Byte(bytes, a) != 0
    ensures k <= StrnLen(bytes, src, len)
    ensures k < len ==> k < StrnLen(bytes, src, len)
  {
    var f := FirstNul(bytes, src, len);
    if f.Some? {
      assert Byte(bytes, src + f.value) == 0;
    }
  }

  /// A NUL at `k` after none before ends a string copy right after it.
  lemma StrnEnds(bytes: map<nat, byte>, src: nat, k: nat, len: nat)
    requires k < len && Byte(bytes, src + k) == 0
    requires forall a :: src <= a < src + k ==> Byte(bytes, a) != 0
    ensures StrnLen(bytes, src, len) == k + 1
  {
    NulAt(bytes, src, k, len);
  }

  // ---------------------------------------------------------------------
  // The initial RAM disk

  /// A physical region from its start address up to its end address.
  datatype Region = Region(start: nat, end: nat)

  /// Bit `k` of a word.
  predicate Bit(word: nat, k: nat) {
    (word / Pow2(k)) % 2 == 1
  }

  /// `get_initrd_region`, `infoAddr` being the multiboot information
  /// address recorded at start-up and `read32` physical memory read a
  /// 32-bit word at a time: the first module's region when bit 3 of the
  /// flags says modules are present and there is at least one; nothing
  /// otherwise.
  function InitrdRegion(infoAddr: Option<nat>, read32: nat -> nat): (r: Option<Region>)
    ensures r.Some? <==> infoAddr.Some? && Bit(read32(infoAddr.value), 3) && read32(infoAddr.value + 20) != 0
    ensures r.Some? ==>
      var modsAddr := read32(infoAddr.value + 24);
      r.value == Region(read32(modsAddr), read32(modsAddr + 4))
  {
    match infoAddr
    case None => None
    case Some(addr) =>
      var flags := read32(addr);
      if !Bit(flags, 3) then None
      else
        var modsCount := read32(addr + 20);
        var modsAddr := read32(addr + 24);
        if modsCount == 0 then None
        else Some(Region(read32(modsAddr), read32(modsAddr + 4)))
  }
}
