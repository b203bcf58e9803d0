/// signalfd: a file that queues the signals of interest delivered to its
/// task and hands them out one by one, and the `signalfd4` call that makes
/// or reconfigures one.
module SignalFds {
  import opened Common

  /// A signal number as user space sees it.
  type Signal = s: nat | 1 <= s <= 64 witness 1

  const SIGKILL: Signal := 9
  const SIGSTOP: Signal := 19

  const SFD_NONBLOCK: bv32 := 0x0000_8000
  const SFD_CLOEXEC: bv32 := 0x0008_0000

  /// The open-file flags `signalfd4` sets; any other flag is kept as is.
  datatype OpenFlag = ONonBlock | OCloExec | OtherFlag(bit: nat)

  /// The four bytes of a signal number as a native (little-endian) `u32`.
  function SignalBytes(sig: Signal): (b: seq<byte>)
    ensures |b| == 4
  {
    [sig % 256, 0, 0, 0]
  }

  function BytesValue(b: seq<byte>): nat
    requires |b| == 4
  {
    b[0] as int + 256 * (b[1] as int + 256 * (b[2] as int + 256 * b[3] as int))
  }

  /// The bytes read back as the signal number.
  lemma SignalBytesRoundTrip(sig: Signal)
    ensures BytesValue(SignalBytes(sig)) == sig
  {
  }

  /// What one `read` of a signalfd gives: four bytes, or the caller sleeps
  /// until a signal is queued and then reads again.
  datatype ReadOutcome = Bytes(data: seq<byte>) | Sleeps

  /// `SignalFd`: the interest mask, the queue of delivered signals, the
  /// readiness flag its condition variable holds, and whether reads block.
  class SignalFd {
    var mask: set<Signal>
    var queue: seq<Signal>
    var ready: bool
    var nonblock: bool

    /// The readiness flag says exactly whether a signal is queued.
    predicate Valid()
      reads this
    {
      ready <==> |queue| > 0
    }

    constructor(mask: set<Signal>, nonblock: bool)
      ensures Valid()
      ensures this.mask == mask && this.nonblock == nonblock && queue == [] && !ready
    {
      this.mask := mask;
      this.nonblock := nonblock;
      queue := [];
      ready := false;
    }

    /// `notify_signal`: a signal of interest other than SIGKILL and SIGSTOP
    /// joins the back of the queue and sets the flag.
    method NotifySignal(sig: Signal)
      requires Valid()
      modifies this
      ensures Valid()
      ensures mask == old(mask) && nonblock == old(nonblock)
      ensures if sig in mask && sig != SIGKILL && sig != SIGSTOP
        then queue == old(queue) + [sig] && ready
        else queue == old(queue) && ready == old(ready)
    {
      if sig in mask && sig != SIGKILL && sig != SIGSTOP {
        queue := queue + [sig];
        ready := true;
      }
    }

    /// `pop_signal`: the oldest queued signal; the flag is cleared when the
    /// queue becomes empty.
    method PopSignal() returns (r: Option<Signal>)
      requires Valid()
      modifies this
      ensures Valid()
      ensures mask == old(mask) && nonblock == old(nonblock)
      ensures old(queue) == [] ==> r == None && queue == [] && ready == old(ready)
      ensures old(queue) != [] ==> r == Some(old(queue)[0]) && queue == old(queue)[1..]
    {
      if |queue| > 0 {
        var sig := queue[0];
        queue := queue[1..];
        if |queue| == 0 {
          ready := false;
        }
        r := Some(sig);
      } else {
        r := None;
      }
    }

    /// `readat`: fewer than four bytes is invalid; otherwise the oldest
    /// signal is taken and its four bytes copied out (a failed copy loses
    /// the signal); with nothing queued a non-blocking file gives
    /// `TryAgain` and a blocking one sleeps. `writable` says whether the
    /// user buffer accepts the bytes.
    method ReadAt(count: nat, writable: bool) returns (r: Result<ReadOutcome>)
      requires Valid()
      modifies this
      ensures Valid()
      ensures mask == old(mask) && nonblock == old(nonblock)
      ensures count < 4 ==> r == Err(InvalidValue) && queue == old(queue)
      ensures count >= 4 && old(queue) != [] ==>
        queue == old(queue)[1..] &&
        r == if writable then Ok(Bytes(SignalBytes(old(queue)[0]))) else Err(Fault)
      ensures count >= 4 && old(queue) == [] ==>
        queue == [] && r == if nonblock then Err(TryAgain) else Ok(Sleeps)
    {
      if count < 4 {
        return Err(InvalidValue);
      }
      var sig := PopSignal();
      match sig
      case Some(s) =>
        r := if writable then Ok(Bytes(SignalBytes(s))) else Err(Fault);
      case None =>
        r := if nonblock then Err(TryAgain) else Ok(Sleeps);
    }
  }

  /// Signals come out in the order they were queued.
  method NotifyThenPop(fd: SignalFd, a: Signal, b: Signal) returns (first: Option<Signal>, second: Option<Signal>)
    requires fd.Valid() && fd.queue == [] && a in fd.mask && b in fd.mask
    requires a !in {SIGKILL, SIGSTOP} && b !in {SIGKILL, SIGSTOP}
    modifies fd
    ensures first == Some(a) && second == Some(b)
    ensures fd.queue == [] && !fd.ready
  {
    fd.NotifySignal(a);
    fd.NotifySignal(b);
    first := fd.PopSignal();
    second := fd.PopSignal();
  }

  /// An open file: its flags and, when it is a signalfd, that object.
  class OpenFile {
    var flags: set<OpenFlag>
    const signalFd: SignalFd?

    constructor(flags: set<OpenFlag>, signalFd: SignalFd?)
      ensures this.flags == flags && this.signalFd == signalFd
    {
      this.flags := flags;
      this.signalFd := signalFd;
    }
  }

  /// The mask `signalfd4` installs: SIGKILL and SIGSTOP are dropped.
  function EffectiveMask(mask: set<Signal>): (m: set<Signal>)
    ensures SIGKILL !in m && SIGSTOP !in m
    ensures forall s :: s in m <==> s in mask && s != SIGKILL && s != SIGSTOP
  {
    mask - {SIGKILL, SIGSTOP}
  }

  /// The open flags `flags` asks for: non-blocking and close-on-exec as
  /// the `SFD_` bits say, everything else as in `was`.
  function SignalFdFlags(was: set<OpenFlag>, flags: bv32): (f: set<OpenFlag>)
    ensures ONonBlock in f <==> flags & SFD_NONBLOCK != 0
    ensures OCloExec in f <==> flags & SFD_CLOEXEC != 0
    ensures forall n :: OtherFlag(n) in f <==> OtherFlag(n) in was
  {
    (was - {ONonBlock, OCloExec})
    + (if flags & SFD_NONBLOCK != 0 then {ONonBlock} else {})
    + (if flags & SFD_CLOEXEC != 0 then {OCloExec} else {})
  }

  /// What `signalfd4` did: made a new file for the caller's table, or
  /// reconfigured the one at `fd`.
  datatype Signalfd4Result = Created(file: OpenFile) | Reconfigured(fd: int)

  /// `sys_signalfd4`. `mask` is the mask read from user memory and
  /// `existing` the open file at `fd` in the task's table, if any.
  method Signalfd4(fd: int, mask: Result<set<Signal>>, flags: bv32, existing: OpenFile?) returns (r: Result<Signalfd4Result>)
    modifies if existing != null then {existing} else {}
    modifies if existing != null && existing.signalFd != null then {existing.signalFd} else {}
    ensures mask.Err? ==> r == Err(mask.error)
    ensures mask.Ok? && fd == -1 ==>
      r.Ok? && r.value.Created? && fresh(r.value.file) && fresh(r.value.file.signalFd)
      && r.value.file.signalFd != null
      && r.value.file.flags == SignalFdFlags({}, flags)
      && r.value.file.signalFd.Valid() && r.value.file.signalFd.queue == []
      && r.value.file.signalFd.mask == EffectiveMask(mask.value)
      && r.value.file.signalFd.nonblock == (flags & SFD_NONBLOCK != 0)
    ensures mask.Ok? && fd != -1 && existing == null ==> r == Err(BadFd)
    ensures mask.Ok? && fd != -1 && existing != null && existing.signalFd == null ==>
      r == Err(InvalidValue) && existing.flags == old(existing.flags)
    ensures mask.Ok? && fd != -1 && existing != null && existing.signalFd != null ==>
      var s := existing.signalFd;
      && r == Ok(Reconfigured(fd))
      && s.mask == EffectiveMask(mask.value) && s.nonblock == (flags & SFD_NONBLOCK != 0)
      && s.queue == old(s.queue) && s.ready == old(s.ready)
      && existing.flags == SignalFdFlags(old(existing.flags), flags)
  {
    if mask.Err? {
      return Err(mask.error);
    }
    var m := EffectiveMask(mask.value);
    var nonblock := flags & SFD_NONBLOCK != 0;
    if fd == -1 {
      var sfd := new SignalFd(m, nonblock);
      var file := new OpenFile(SignalFdFlags({}, flags), sfd);
      return Ok(Created(file));
    }
    if existing == null {
      return Err(BadFd);
    }
    var s := existing.signalFd;
    if s == null {
      return Err(InvalidValue);
    }
    s.mask := m;
    s.nonblock := nonblock;
    existing.flags := SignalFdFlags(existing.flags, flags);
    r := Ok(Reconfigured(fd));
  }

  /// `broadcast_to_signalfds` scans only the first 8192 descriptors.
  const MAX_FDS_SCAN: nat := 8192

  /// The open files in slots `0..n` of a descriptor table, in fd order.
  function FilesBelow(table: seq<OpenFile?>, n: nat): (files: seq<OpenFile>)
    requires n <= |table|
    ensures |files| <= n
    ensures forall i :: 0 <= i < n && table[i] != null ==> table[i] in files
    ensures forall k :: 0 <= k < |files| ==> exists i :: 0 <= i < n && table[i] == files[k]
  {
    if n == 0 then []
    else if table[n - 1] == null then FilesBelow(table, n - 1)
    else FilesBelow(table, n - 1) + [table[n - 1]]
  }

  /// How many of `files` lead to the signalfd object `s`.
  function Hits(files: seq<OpenFile>, s: SignalFd): nat
  {
    if files == [] then 0
    else Hits(files[..|files| - 1], s) + (if files[|files| - 1].signalFd == s then 1 else 0)
  }

  function Repeat(sig: Signal, k: nat): (r: seq<Signal>)
    ensures |r| == k && forall j :: 0 <= j < k ==> r[j] == sig
  {
    if k == 0 then [] else Repeat(sig, k - 1) + [sig]
  }

  /// The signalfd objects reachable from a list of open files.
  ghost function Objects(files: seq<OpenFile>): set<SignalFd>
  {
    set f | f in files && f.signalFd != null :: f.signalFd
  }

  /// `s` has kept its mask and mode and gained `k` copies of `sig` over
  /// `queue0` when its mask accepts the signal, nothing otherwise.
  ghost predicate Delivered(s: SignalFd, queue0: seq<Signal>, mask0: set<Signal>, nonblock0: bool, sig: Signal, k: nat)
    reads s
  {
    && s.Valid() && s.mask == mask0 && s.nonblock == nonblock0
    && s.queue == queue0 + (if sig in mask0 && sig != SIGKILL && sig != SIGSTOP then Repeat(sig, k) else [])
  }

  lemma HitsStep(files: seq<OpenFile>, j: nat)
    requires j < |files|
    ensures forall s :: Hits(files[..j + 1], s) == Hits(files[..j], s) + (if files[j].signalFd == s then 1 else 0)
  {
    assert files[..j + 1][..j] == files[..j];
  }

  /// The collecting loop of `broadcast_to_signalfds`: the open files of
  /// slots `0..n`, in fd order.
  method CollectFiles(table: seq<OpenFile?>, n: nat) returns (files: seq<OpenFile>)
    requires n <= |table|
    ensures files == FilesBelow(table, n)
  {
    files := [];
    var i := 0;
    while i < n
      invariant 0 <= i <= n
      invariant files == FilesBelow(table, i)
    {
      if table[i] != null {
        files := files + [table[i]];
      }
      i := i + 1;
    }
  }

  /// The delivery loop of `broadcast_to_signalfds`: every signalfd among
  /// `files` is notified once per time it appears.
  method NotifyAll(files: seq<OpenFile>, sig: Signal)
    requires forall s :: s in Objects(files) ==> s.Valid()
    modifies Objects(files)
    ensures forall s :: s in Objects(files) ==>
      Delivered(s, old(s.queue), old(s.mask), old(s.nonblock), sig, Hits(files, s))
  {
    ghost var objects := Objects(files);
    var j := 0;
    while j < |files|
      invariant 0 <= j <= |files|
      invariant forall s :: s in objects ==>
        Delivered(s, old(s.queue), old(s.mask), old(s.nonblock), sig, Hits(files[..j], s))
    {
      var s := files[j].signalFd;
      HitsStep(files, j);
      if s != null {
        s.NotifySignal(sig);
      }
      j := j + 1;
    }
    assert files[..|files|] == files;
  }

  /// `broadcast_to_signalfds`: the open files of the first 8192 slots of
  /// `table` are collected, then every one that is a signalfd is notified.
  /// Each object ends with `sig` appended once per slot that leads to it
  /// when its mask accepts the signal, and unchanged otherwise.
  method Broadcast(table: seq<OpenFile?>, sig: Signal)
    requires forall i :: 0 <= i < |table| && table[i] != null && table[i].signalFd != null ==> table[i].signalFd.Valid()
    modifies set i | 0 <= i < |table| && table[i] != null && table[i].signalFd != null :: table[i].signalFd
    ensures forall i :: 0 <= i < |table| && table[i] != null && table[i].signalFd != null ==>
      var s := table[i].signalFd;
      Delivered(s, old(s.queue), old(s.mask), old(s.nonblock), sig, Hits(FilesBelow(table, Min(|table|, MAX_FDS_SCAN)), s))
  {
    var files := CollectFiles(table, Min(|table|, MAX_FDS_SCAN));
    NotifyAll(files, sig);
    forall k | 0 <= k < |table| && table[k] != null && table[k].signalFd != null && table[k].signalFd !in Objects(files)
      ensures var s := table[k].signalFd; Delivered(s, old(s.queue), old(s.mask), old(s.nonblock), sig, Hits(files, s))
    {
      HitsAbsent(files, table[k].signalFd);
      assert old(table[k].signalFd.queue) + [] == old(table[k].signalFd.queue);
    }
  }

  lemma {:induction false} HitsAbsent(files: seq<OpenFile>, s: SignalFd)
    requires s !in Objects(files)
    ensures Hits(files, s) == 0
  {
    if files != [] {
      assert Objects(files[..|files| - 1]) <= Objects(files);
      HitsAbsent(files[..|files| - 1], s);
    }
  }

  /// How many descriptor slots below `n` hold a file backed by `s`.
  function SlotCount(table: seq<OpenFile?>, n: nat, s: SignalFd): nat
    requires n <= |table|
  {
    if n == 0 then 0
    else SlotCount(table, n - 1, s) + (if table[n - 1] != null && table[n - 1].signalFd == s then 1 else 0)
  }

  /// A broadcast delivers the signal to an object once per descriptor slot
  /// below the scan limit that leads to it: none when every such slot is
  /// at or above 8192, twice when two slots share the file.
  lemma {:induction false} BroadcastCount(table: seq<OpenFile?>, n: nat, s: SignalFd)
    requires n <= |table|
    ensures Hits(FilesBelow(table, n), s) == SlotCount(table, n, s)
  {
    if n > 0 {
      BroadcastCount(table, n - 1, s);
      var prefix := FilesBelow(table, n - 1);
      if table[n - 1] != null {
        assert (prefix + [table[n - 1]])[..|prefix|] == prefix;
      }
    }
  }
}
