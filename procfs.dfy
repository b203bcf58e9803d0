/// procfs: a root directory with one entry per task plus `self`, a
/// directory per process holding `status`, `comm` and `state`, and the text
/// those files read back.
module ProcFs {
  import opened Common
  import Process

  /// Kinds of directory entry procfs hands out.
  datatype FileType = Directory | File

  /// A directory entry: its name, the inode number within procfs, its kind
  /// and the offset a later `readdir` resumes from.
  datatype Dirent = Dirent(name: string, ino: nat, kind: FileType, offset: nat)

  // ---- decimal numbers ----

  predicate IsDigit(c: char) {
    '0' <= c <= '9'
  }

  function DigitChar(d: nat): (c: char)
    requires d < 10
    ensures IsDigit(c) && c as int - '0' as int == d
  {
    ('0' as int + d) as char
  }

  /// The decimal spelling of `n`, as `to_string` gives it.
  function Decimal(n: nat): (s: string)
    ensures |s| >= 1 && forall i :: 0 <= i < |s| ==> IsDigit(s[i])
    decreases n
  {
    if n < 10 then [DigitChar(n)] else Decimal(n / 10) + [DigitChar(n % 10)]
  }

  /// The value of a run of decimal digits, most significant first.
  function DigitsValue(s: string): nat
    requires forall i :: 0 <= i < |s| ==> IsDigit(s[i])
    decreases |s|
  {
    if s == [] then 0
    else
      assert IsDigit(s[|s| - 1]);
      DigitsValue(s[..|s| - 1]) * 10 + (s[|s| - 1] as int - '0' as int)
  }

  /// `str::parse::<u32>`: an optional `+`, then one or more decimal digits
  /// whose value fits in 32 bits.
  function ParseU32(s: string): (r: Option<nat>)
    ensures r.Some? ==> r.value < U32_LIMIT
    ensures s == [] ==> r == None
  {
    var digits := if |s| > 0 && s[0] == '+' then s[1..] else s;
    if digits == [] || exists i :: 0 <= i < |digits| && !IsDigit(digits[i]) then None
    else
      var v := DigitsValue(digits);
      if v < U32_LIMIT then Some(v) else None
  }

  lemma {:induction false} DecimalValue(n: nat)
    ensures DigitsValue(Decimal(n)) == n
    decreases n
  {
    if n >= 10 {
      var s := Decimal(n);
      DecimalValue(n / 10);
      assert s[..|s| - 1] == Decimal(n / 10);
    }
  }

  /// A 32-bit number's decimal name parses back to it.
  lemma ParseDecimal(n: nat)
    requires n < U32_LIMIT
    ensures ParseU32(Decimal(n)) == Some(n)
  {
    DecimalValue(n);
  }

  // ---- inode numbers ----

  /// `ProcFs`: the counter inode numbers are handed out from.
  class ProcFsInstance {
    var nextInodeId: nat

    /// A new procfs hands out inode numbers from 1; 0 is the root's.
    constructor()
      ensures nextInodeId == 1
    {
      nextInodeId := 1;
    }

    /// `alloc_inode_id`: the next number, never handed out before.
    method AllocInodeId() returns (id: nat)
      modifies this
      ensures id == old(nextInodeId) && nextInodeId == id + 1
    {
      id := nextInodeId;
      nextInodeId := nextInodeId + 1;
    }
  }

  /// The only filesystem driver check: procfs has no backing device.
  class ProcFsDriver {
    var instance: ProcFsInstance?

    constructor()
      ensures instance == null
    {
      instance := null;
    }

    /// `construct`: a block device is refused; otherwise the one procfs
    /// instance, made on first use.
    method Construct(hasDevice: bool) returns (r: Result<ProcFsInstance>)
      modifies this
      ensures hasDevice ==> r == Err(InvalidValue) && instance == old(instance)
      ensures !hasDevice && old(instance) != null ==> r.Ok? && r.value == old(instance) && instance == old(instance)
      ensures !hasDevice && old(instance) == null ==>
        r.Ok? && fresh(r.value) && r.value.nextInodeId == 1 && instance == r.value
    {
      if hasDevice {
        return Err(InvalidValue);
      }
      var fs := instance;
      if fs == null {
        fs := new ProcFsInstance();
        instance := fs;
      }
      r := Ok(fs);
    }
  }

  // ---- directory listings ----

  /// The entries from offset `start` on; none once `start` reaches the end.
  function Skip(entries: seq<Dirent>, start: nat): (r: seq<Dirent>)
    ensures start >= |entries| ==> r == []
    ensures start < |entries| ==> |r| == |entries| - start
    ensures forall j :: 0 <= j < |r| ==> start + j < |entries| && r[j] == entries[start + j]
  {
    if start < |entries| then entries[start..] else []
  }

  /// The root's entry for the task at position `idx` of the task list.
  function TaskEntry(d: Process.TaskDescriptor, idx: nat): Dirent {
    Dirent(Decimal(d.tgid), idx + 1, Directory, idx + 1)
  }

  /// The root listing: one entry per task, then `self`.
  function RootListing(tasks: seq<Process.TaskDescriptor>): seq<Dirent> {
    seq(|tasks|, i requires 0 <= i < |tasks| => TaskEntry(tasks[i], i))
      + [Dirent("self", 0, Directory, |tasks| + 1)]
  }

  /// Every root entry is named after a task's thread group, at offsets
  /// 1..n, and `self` comes last at n + 1.
  lemma RootListingShape(tasks: seq<Process.TaskDescriptor>)
    ensures |RootListing(tasks)| == |tasks| + 1
    ensures forall i :: 0 <= i < |tasks| ==>
      RootListing(tasks)[i].name == Decimal(tasks[i].tgid) && RootListing(tasks)[i].kind == Directory
    ensures RootListing(tasks)[|tasks|].name == "self"
    ensures forall i :: 0 <= i < |tasks| + 1 ==> RootListing(tasks)[i].offset == i + 1
  {
  }

  /// A task directory lists its three files at offsets 1, 2 and 3.
  const TASK_LISTING: seq<Dirent> := [
    Dirent("status", 0, File, 1),
    Dirent("comm", 0, File, 2),
    Dirent("state", 0, File, 3)
  ]

  /// Listings whose offsets count up from 1.
  predicate OffsetsCount(entries: seq<Dirent>) {
    forall i :: 0 <= i < |entries| ==> entries[i].offset == i + 1
  }

  /// A `readdir` from the offset of any entry it handed out resumes with the
  /// entries after it.
  lemma ResumeAfter(entries: seq<Dirent>, start: nat, j: nat)
    requires OffsetsCount(entries)
    requires j < |Skip(entries, start)|
    ensures Skip(entries, Skip(entries, start)[j].offset) == Skip(entries, start)[j + 1..]
  {
    var e := Skip(entries, start)[j];
    assert e == entries[start + j];
  }

  lemma ListingsCount(tasks: seq<Process.TaskDescriptor>)
    ensures OffsetsCount(RootListing(tasks)) && OffsetsCount(TASK_LISTING)
  {
  }

  /// `ProcDirStream`: the entries of one `readdir` and how far the caller
  /// has read.
  class ProcDirStream {
    const entries: seq<Dirent>
    var idx: nat

    constructor(entries: seq<Dirent>)
      ensures this.entries == entries && idx == 0
    {
      this.entries := entries;
      idx := 0;
    }

    /// `next_entry`: the next entry, or none at the end.
    method NextEntry() returns (r: Option<Dirent>)
      modifies this
      ensures old(idx) < |entries| ==> r == Some(entries[old(idx)]) && idx == old(idx) + 1
      ensures old(idx) >= |entries| ==> r == None && idx == old(idx)
    {
      if idx < |entries| {
        r := Some(entries[idx]);
        idx := idx + 1;
      } else {
        r := None;
      }
    }
  }

  /// The root's `readdir`: the listing built entry by entry, then cut at
  /// `startOffset`.
  method RootReaddir(tasks: seq<Process.TaskDescriptor>, startOffset: nat) returns (stream: ProcDirStream)
    ensures fresh(stream) && stream.idx == 0
    ensures stream.entries == Skip(RootListing(tasks), startOffset)
  {
    var entries: seq<Dirent> := [];
    var i := 0;
    while i < |tasks|
      invariant 0 <= i <= |tasks|
      invariant entries == RootListing(tasks)[..i]
    {
      entries := entries + [TaskEntry(tasks[i], i)];
      i := i + 1;
    }
    entries := entries + [Dirent("self", 0, Directory, |entries| + 1)];
    assert entries == RootListing(tasks);
    stream := new ProcDirStream(Skip(entries, startOffset));
  }

  /// A task directory's `readdir`.
  method TaskReaddir(startOffset: nat) returns (stream: ProcDirStream)
    ensures fresh(stream) && stream.idx == 0
    ensures stream.entries == Skip(TASK_LISTING, startOffset)
  {
    stream := new ProcDirStream(Skip(TASK_LISTING, startOffset));
  }

  // ---- lookup ----

  datatype TaskFileType = Status | Comm | State

  /// `TaskFileType::from_filename`.
  function FromFilename(name: string): (r: Option<TaskFileType>)
    ensures r.Some? <==> name in {"status", "comm", "state"}
  {
    if name == "status" then Some(Status)
    else if name == "comm" then Some(Comm)
    else if name == "state" then Some(State)
    else None
  }

  /// Lookup in a task directory accepts exactly the names its listing
  /// shows.
  lemma LookupMatchesListing(name: string)
    ensures FromFilename(name).Some? <==> exists i :: 0 <= i < |TASK_LISTING| && TASK_LISTING[i].name == name
  {
    if FromFilename(name).Some? {
      if name == "status" { assert TASK_LISTING[0].name == name; }
      else if name == "comm" { assert TASK_LISTING[1].name == name; }
      else { assert TASK_LISTING[2].name == name; }
    }
  }

  /// A process directory: the thread group it shows and its inode number.
  datatype TaskInode = TaskInode(pid: nat, ino: nat)

  /// A file in a process directory.
  datatype TaskFileInode = TaskFileInode(pid: nat, fileType: TaskFileType, ino: nat)

  /// Whether some task belongs to thread group `pid`.
  predicate GroupExists(tasks: seq<Process.TaskDescriptor>, pid: nat) {
    exists i :: 0 <= i < |tasks| && tasks[i].tgid == pid
  }

  /// The number `self` stands for, as written: the caller's thread id.
  function SelfPidAsWritten(current: Process.TaskDescriptor): nat {
    current.tid
  }

  /// The number `self` stands for: the caller's thread group, the name the
  /// root lists it under.
  function SelfPid(current: Process.TaskDescriptor): (pid: nat)
    ensures pid == current.tgid
  {
    current.tgid
  }

  /// The process directory a root lookup names, before the existence check.
  function LookupPid(name: string, current: Process.TaskDescriptor): (r: Option<nat>)
    ensures name == "self" ==> r == Some(SelfPid(current))
    ensures name != "self" ==> r == ParseU32(name)
  {
    if name == "self" then Some(SelfPid(current)) else ParseU32(name)
  }

  /// A thread other than its group's leader looking up `self`, as written,
  /// names a process that does not exist when no group has its thread id.
  lemma SelfFromThreadNotFound(current: Process.TaskDescriptor, tasks: seq<Process.TaskDescriptor>)
    requires current in tasks && current.tid != current.tgid
    requires forall i :: 0 <= i < |tasks| ==> tasks[i].tgid != current.tid
    ensures !GroupExists(tasks, SelfPidAsWritten(current))
    ensures GroupExists(tasks, SelfPid(current))
  {
  }

  /// The root's `lookup`: `self` or a 32-bit number naming an existing
  /// thread group gives that process's directory with a fresh inode number.
  method RootLookup(fs: ProcFsInstance, name: string, current: Process.TaskDescriptor,
                    tasks: seq<Process.TaskDescriptor>) returns (r: Result<TaskInode>)
    modifies fs
    ensures match LookupPid(name, current)
      case None => r == Err(NotFound) && fs.nextInodeId == old(fs.nextInodeId)
      case Some(pid) =>
        if GroupExists(tasks, pid)
        then r == Ok(TaskInode(pid, old(fs.nextInodeId))) && fs.nextInodeId == old(fs.nextInodeId) + 1
        else r == Err(NotFound) && fs.nextInodeId == old(fs.nextInodeId)
  {
    var pid := LookupPid(name, current);
    if pid.None? {
      return Err(NotFound);
    }
    var found := false;
    var i := 0;
    while i < |tasks|
      invariant 0 <= i <= |tasks|
      invariant found <==> exists k :: 0 <= k < i && tasks[k].tgid == pid.value
    {
      if tasks[i].tgid == pid.value {
        found := true;
      }
      i := i + 1;
    }
    if !found {
      return Err(NotFound);
    }
    var ino := fs.AllocInodeId();
    r := Ok(TaskInode(pid.value, ino));
  }

  /// `self` always names the caller's own process directory.
  method LookupSelf(fs: ProcFsInstance, current: Process.TaskDescriptor, tasks: seq<Process.TaskDescriptor>) returns (r: Result<TaskInode>)
    requires current in tasks
    modifies fs
    ensures r.Ok? && r.value.pid == current.tgid
  {
    r := RootLookup(fs, "self", current, tasks);
  }

  /// A process directory's `lookup`: one of its three files, with a fresh
  /// inode number, or `NotFound`.
  method TaskLookup(fs: ProcFsInstance, dir: TaskInode, name: string) returns (r: Result<TaskFileInode>)
    modifies fs
    ensures FromFilename(name).None? ==> r == Err(NotFound) && fs.nextInodeId == old(fs.nextInodeId)
    ensures FromFilename(name).Some? ==>
      r == Ok(TaskFileInode(dir.pid, FromFilename(name).value, old(fs.nextInodeId)))
      && fs.nextInodeId == old(fs.nextInodeId) + 1
  {
    var ft := FromFilename(name);
    if ft.None? {
      return Err(NotFound);
    }
    var ino := fs.AllocInodeId();
    r := Ok(TaskFileInode(dir.pid, ft.value, ino));
  }

  // ---- file contents ----

  /// What a task file shows about its process.
  datatype TaskInfo = TaskInfo(comm: Process.Comm, state: Process.TaskState, fdSize: nat, threads: nat)

  /// The text of a task file: the process's details in the file's format,
  /// or a note that it is gone.
  function Content(pid: nat, ft: TaskFileType, info: Option<TaskInfo>): (b: seq<byte>)
    ensures info.None? ==> b == Ascii("State:\tGone\n")
    ensures info.Some? && ft == Comm ==> b == Process.AsStr(info.value.comm) + Ascii("\n")
    ensures info.Some? && ft == State ==> b == Ascii(Process.StateLetter(info.value.state) + "\n")
  {
    match info
    case None => Ascii("State:\tGone\n")
    case Some(t) =>
      match ft
      case Status =>
        Ascii("Name:\t") + Process.AsStr(t.comm)
        + Ascii("\nState:\t" + Process.StateLetter(t.state))
        + Ascii("\nTgid:\t") + Ascii(Decimal(pid))
        + Ascii("\nFDSize:\t") + Ascii(Decimal(t.fdSize))
        + Ascii("\nPid:\t") + Ascii(Decimal(pid))
        + Ascii("\nThreads:\t") + Ascii(Decimal(t.threads)) + Ascii("\n")
      case Comm => Process.AsStr(t.comm) + Ascii("\n")
      case State => Ascii(Process.StateLetter(t.state) + "\n")
  }

  /// `read_at` of a task file's text: from `offset`, as many bytes as are
  /// left and fit in `bufLen`; nothing at or past the end.
  function ReadSlice(bytes: seq<byte>, offset: nat, bufLen: nat): (r: seq<byte>)
    ensures |r| == Min(if offset < |bytes| then |bytes| - offset else 0, bufLen)
    ensures offset >= |bytes| || bufLen == 0 ==> r == []
    ensures forall j :: 0 <= j < |r| ==> offset + j < |bytes| && r[j] == bytes[offset + j]
  {
    var end := Min(if offset < |bytes| then |bytes| - offset else 0, bufLen);
    if end == 0 then [] else bytes[offset..offset + end]
  }

  /// Reading on from where a read stopped continues the text: two reads
  /// give what one read with the two buffers together gives.
  lemma ReadsConcatenate(bytes: seq<byte>, offset: nat, n: nat, m: nat)
    ensures var first := ReadSlice(bytes, offset, n);
      first + ReadSlice(bytes, offset + |first|, m) == ReadSlice(bytes, offset, n + m)
  {
    var first := ReadSlice(bytes, offset, n);
    var second := ReadSlice(bytes, offset + |first|, m);
    var whole := ReadSlice(bytes, offset, n + m);
    if |first| < n {
      assert second == [];
    }
    assert |first + second| == |whole|;
    forall j | 0 <= j < |whole|
      ensures (first + second)[j] == whole[j]
    {
      if j >= |first| {
        assert (first + second)[j] == second[j - |first|];
      }
    }
  }
}
