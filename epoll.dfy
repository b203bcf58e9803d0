/// epoll: the interest list of an epoll instance, kept in ascending order
/// of file descriptor, the conversions between epoll and poll event masks,
/// and the event collection of `epoll_pwait`.
module Epoll {
  import opened Common

  const EPOLL_CTL_ADD: int := 1
  const EPOLL_CTL_DEL: int := 2
  const EPOLL_CTL_MOD: int := 3

  const EPOLLIN: bv32 := 0x001
  const EPOLLOUT: bv32 := 0x004
  const EPOLLERR: bv32 := 0x008
  const EPOLLHUP: bv32 := 0x010

  const EPOLL_CLOEXEC: bv32 := 0x80000

  /// The poll conditions an epoll mask can name.
  datatype PollFlags = PollFlags(pollIn: bool, pollOut: bool, pollErr: bool, pollHup: bool)

  const NO_FLAGS: PollFlags := PollFlags(false, false, false, false)

  predicate IsEmpty(pf: PollFlags)
  {
    pf == NO_FLAGS
  }

  /// `ep_to_poll`.
  function EpToPoll(mask: bv32): PollFlags
  {
    PollFlags(mask & EPOLLIN != 0, mask & EPOLLOUT != 0, mask & EPOLLERR != 0, mask & EPOLLHUP != 0)
  }

  /// `poll_to_ep`.
  function PollToEp(pf: PollFlags): bv32
  {
    (if pf.pollIn then EPOLLIN else 0) | (if pf.pollOut then EPOLLOUT else 0)
    | (if pf.pollErr then EPOLLERR else 0) | (if pf.pollHup then EPOLLHUP else 0)
  }

  /// An epoll mask survives the trip through poll flags restricted to the
  /// four conditions; other bits are dropped. Poll flags survive the trip
  /// the other way whole.
  lemma MaskRoundTrip(mask: bv32, pf: PollFlags)
    ensures PollToEp(EpToPoll(mask)) == mask & (EPOLLIN | EPOLLOUT | EPOLLERR | EPOLLHUP)
    ensures EpToPoll(PollToEp(pf)) == pf
  {
  }

  /// `sys_epoll_create1`: any flag but `EPOLL_CLOEXEC` is invalid; the
  /// result says whether the new descriptor is close-on-exec.
  function Create1(flags: bv32): (r: Result<bool>)
    ensures r.Ok? <==> flags & !EPOLL_CLOEXEC == 0
    ensures r.Err? ==> r.error == InvalidValue
    ensures r.Ok? ==> (r.value <==> flags == EPOLL_CLOEXEC)
  {
    if flags & !EPOLL_CLOEXEC != 0 then Err(InvalidValue)
    else Ok(flags & EPOLL_CLOEXEC != 0)
  }

  /// `EpollEvent`.
  datatype EpollEvent = EpollEvent(events: bv32, data: bv64)

  /// `EpItem`: the watched open file, the conditions of interest and the
  /// caller's data.
  datatype EpItem = EpItem(file: nat, flags: PollFlags, data: bv64)

  // ---------------------------------------------------------------------
  // The interest list: entries in strictly ascending order of descriptor

  type Entry = (int, EpItem)

  predicate Sorted(s: seq<Entry>)
  {
    |s| < 2 || (s[0].0 < s[1].0 && Sorted(s[1..]))
  }

  /// The entry registered for `fd`, if any.
  function Find(s: seq<Entry>, fd: int): Option<EpItem>
  {
    if |s| == 0 then None
    else if s[0].0 == fd then Some(s[0].1)
    else Find(s[1..], fd)
  }

  /// A sorted list holds nothing below its first descriptor.
  lemma {:induction false} FindBelow(s: seq<Entry>, fd: int)
    requires Sorted(s) && |s| > 0 && fd < s[0].0
    ensures Find(s, fd).None?
  {
    if |s| > 1 {
      FindBelow(s[1..], fd);
    }
  }

  /// The list with `(fd, item)` put at its place.
  function Insert(s: seq<Entry>, fd: int, item: EpItem): (r: seq<Entry>)
    requires Sorted(s) && Find(s, fd).None?
    ensures Sorted(r) && |r| == |s| + 1
    ensures r[0] == (fd, item) || (|s| > 0 && r[0] == s[0])
  {
    if |s| == 0 || fd < s[0].0 then [(fd, item)] + s
    else
      var rest := Insert(s[1..], fd, item);
      assert ([s[0]] + rest)[1..] == rest;
      [s[0]] + rest
  }

  /// The list without the entry for `fd`.
  function Remove(s: seq<Entry>, fd: int): (r: seq<Entry>)
    requires Sorted(s)
    ensures Sorted(r)
    ensures |r| > 0 ==> |s| > 0 && r[0].0 >= s[0].0
  {
    if |s| == 0 then []
    else if s[0].0 == fd then s[1..]
    else
      var rest := Remove(s[1..], fd);
      assert ([s[0]] + rest)[1..] == rest;
      [s[0]] + rest
  }

  /// The list with the entry for `fd` given a new value.
  function Replace(s: seq<Entry>, fd: int, item: EpItem): (r: seq<Entry>)
    ensures |r| == |s| && (|s| > 0 ==> r[0].0 == s[0].0)
    ensures Sorted(s) ==> Sorted(r)
  {
    if |s| == 0 then []
    else
      var rest := Replace(s[1..], fd, item);
      assert ([if s[0].0 == fd then (fd, item) else s[0]] + rest)[1..] == rest;
      [if s[0].0 == fd then (fd, item) else s[0]] + rest
  }

  /// What each descriptor maps to after an update of `fd` in a sorted
  /// list: the new value at `fd`, the old one elsewhere.
  ghost predicate UpdatedAt(s: seq<Entry>, was: seq<Entry>, fd: int, v: Option<EpItem>)
  {
    Sorted(s) && Find(s, fd) == v && forall k :: k != fd ==> Find(s, k) == Find(was, k)
  }

  lemma {:induction false} InsertFind(s: seq<Entry>, fd: int, item: EpItem, k: int)
    requires Sorted(s) && Find(s, fd).None?
    ensures Find(Insert(s, fd, item), k) == if k == fd then Some(item) else Find(s, k)
  {
    if |s| > 0 && fd >= s[0].0 {
      var r := Insert(s, fd, item);
      assert r[1..] == Insert(s[1..], fd, item);
      InsertFind(s[1..], fd, item, k);
    }
  }

  lemma {:induction false} RemoveFind(s: seq<Entry>, fd: int, k: int)
    requires Sorted(s)
    ensures Find(Remove(s, fd), k) == if k == fd then None else Find(s, k)
  {
    if |s| > 0 {
      if s[0].0 == fd {
        if |s| > 1 {
          FindBelow(s[1..], fd);
        }
      } else {
        var r := Remove(s, fd);
        assert r[1..] == Remove(s[1..], fd);
        RemoveFind(s[1..], fd, k);
      }
    }
  }

  lemma {:induction false} ReplaceFind(s: seq<Entry>, fd: int, item: EpItem, k: int)
    ensures k != fd ==> Find(Replace(s, fd, item), k) == Find(s, k)
    ensures Find(s, fd).Some? ==> Find(Replace(s, fd, item), fd) == Some(item)
  {
    if |s| > 0 {
      var r := Replace(s, fd, item);
      assert r[1..] == Replace(s[1..], fd, item);
      ReplaceFind(s[1..], fd, item, k);
    }
  }

  /// Sorted lists are ordered at every distance, not only between
  /// neighbours.
  lemma {:induction false} SortedOrdered(s: seq<Entry>, i: nat, j: nat)
    requires Sorted(s) && i < j < |s|
    ensures s[i].0 < s[j].0
  {
    if i > 0 {
      SortedOrdered(s[1..], i - 1, j - 1);
    } else if j > 1 {
      SortedOrdered(s[1..], 0, j - 1);
    }
  }

  lemma InsertEffect(s: seq<Entry>, fd: int, item: EpItem)
    requires Sorted(s) && Find(s, fd).None?
    ensures UpdatedAt(Insert(s, fd, item), s, fd, Some(item))
  {
    forall k
      ensures Find(Insert(s, fd, item), k) == if k == fd then Some(item) else Find(s, k)
    {
      InsertFind(s, fd, item, k);
    }
  }

  lemma RemoveEffect(s: seq<Entry>, fd: int)
    requires Sorted(s)
    ensures UpdatedAt(Remove(s, fd), s, fd, None)
  {
    forall k
      ensures Find(Remove(s, fd), k) == if k == fd then None else Find(s, k)
    {
      RemoveFind(s, fd, k);
    }
  }

  lemma ReplaceEffect(s: seq<Entry>, fd: int, item: EpItem)
    requires Sorted(s) && Find(s, fd).Some?
    ensures UpdatedAt(Replace(s, fd, item), s, fd, Some(item))
  {
    forall k
      ensures Find(Replace(s, fd, item), k) == if k == fd then Some(item) else Find(s, k)
    {
      ReplaceFind(s, fd, item, k);
    }
  }

  // ---------------------------------------------------------------------
  // epoll_pwait's collection of ready events

  /// Where the readiness of one watched file stands when the wait ends.
  datatype PollStatus = Pending | Ready(flags: PollFlags) | Failed(error: Error)

  predicate IsReady(p: PollStatus)
  {
    p.Ready? && !IsEmpty(p.flags)
  }

  /// The first failure, in list order.
  function FirstFailure(status: seq<PollStatus>): Option<Error>
  {
    if |status| == 0 then None
    else
      match FirstFailure(status[..|status| - 1])
      case Some(e) => Some(e)
      case None => if status[|status| - 1].Failed? then Some(status[|status| - 1].error) else None
  }

  /// The positions of the ready entries, in list order.
  function ReadyIndices(status: seq<PollStatus>): (r: seq<nat>)
    ensures forall j :: 0 <= j < |r| ==> r[j] < |status| && IsReady(status[r[j]])
    ensures forall j, k :: 0 <= j < k < |r| ==> r[j] < r[k]
    ensures forall i :: 0 <= i < |status| && IsReady(status[i]) ==> i in r
    decreases |status|
  {
    if |status| == 0 then []
    else
      var n := |status| - 1;
      var before := ReadyIndices(status[..n]);
      if IsReady(status[n]) then before + [n] else before
  }

  /// The event reported for the entry at one ready position.
  function EventAt(items: seq<Entry>, status: seq<PollStatus>, i: nat): EpollEvent
    requires i < |items| && i < |status| && status[i].Ready?
  {
    EpollEvent(PollToEp(status[i].flags), items[i].1.data)
  }

  /// The events of every ready entry, in list order.
  function ReadyEvents(items: seq<Entry>, status: seq<PollStatus>): (r: seq<EpollEvent>)
    requires |items| == |status|
  {
    var idx := ReadyIndices(status);
    seq(|idx|, j requires 0 <= j < |idx| => EventAt(items, status, idx[j]))
  }

  /// The first at most `n` elements.
  function Take<T>(s: seq<T>, n: nat): (r: seq<T>)
  {
    s[..Min(|s|, n)]
  }

  /// Extending the status list only appends to the ready positions.
  lemma {:induction false} ReadyIndicesPrefix(status: seq<PollStatus>, i: nat)
    requires i <= |status|
    ensures ReadyIndices(status[..i]) <= ReadyIndices(status)
    decreases |status| - i
  {
    if i < |status| {
      ReadyIndicesPrefix(status, i + 1);
      var n := i;
      assert status[..i + 1][..n] == status[..i];
    } else {
      assert status[..i] == status;
    }
  }

  /// Every event reported is a ready entry's: its conditions are that
  /// entry's ready conditions and its data the data registered with it;
  /// in a sorted list they come in ascending descriptor order, and every
  /// ready entry is reported.
  lemma ReadyEventsReport(items: seq<Entry>, status: seq<PollStatus>)
    requires |items| == |status| && Sorted(items)
    ensures var idx, r := ReadyIndices(status), ReadyEvents(items, status);
      && |r| == |idx|
      && (forall j :: 0 <= j < |r| ==>
            IsReady(status[idx[j]]) && r[j].data == items[idx[j]].1.data
            && r[j].events == PollToEp(status[idx[j]].flags) && r[j].events != 0)
      && (forall j, k :: 0 <= j < k < |r| ==> items[idx[j]].0 < items[idx[k]].0)
      && (forall i :: 0 <= i < |status| && IsReady(status[i]) ==> i in idx)
  {
    var idx := ReadyIndices(status);
    forall j | 0 <= j < |idx|
      ensures PollToEp(status[idx[j]].flags) != 0
    {
      MaskRoundTrip(0, status[idx[j]].flags);
    }
    forall j, k | 0 <= j < k < |idx|
      ensures items[idx[j]].0 < items[idx[k]].0
    {
      SortedOrdered(items, idx[j], idx[k]);
    }
  }

  /// The result of a wait: the events reported, or still waiting.
  datatype PwaitOutcome = Events(events: seq<EpollEvent>) | Waiting

  /// `EpollInstance`: the interest list of one epoll descriptor.
  class EpollInstance {
    var interest: seq<Entry>

    predicate Valid()
      reads this
    {
      Sorted(interest)
    }

    constructor()
      ensures Valid() && interest == []
    {
      interest := [];
    }

    /// `sys_epoll_ctl` on this instance. `event` is the event read from
    /// user memory and `target` the open file `fd` names in the task's
    /// table, if any.
    method Ctl(op: int, fd: int, event: Result<EpollEvent>, target: Option<nat>) returns (r: Result<nat>)
      requires Valid()
      modifies this
      ensures Valid()
      ensures r.Ok? ==> r.value == 0
      ensures op == EPOLL_CTL_ADD ==>
        if event.Err? then r == Err(event.error) && interest == old(interest)
        else if target.None? then r == Err(BadFd) && interest == old(interest)
        else if Find(old(interest), fd).Some? then r == Err(AlreadyExists) && interest == old(interest)
        else r.Ok? && UpdatedAt(interest, old(interest), fd, Some(EpItem(target.value, EpToPoll(event.value.events), event.value.data)))
      ensures op == EPOLL_CTL_MOD ==>
        if event.Err? then r == Err(event.error) && interest == old(interest)
        else if Find(old(interest), fd).None? then r == Err(NotFound) && interest == old(interest)
        else r.Ok? && UpdatedAt(interest, old(interest), fd,
          Some(Find(old(interest), fd).value.(flags := EpToPoll(event.value.events), data := event.value.data)))
      ensures op == EPOLL_CTL_DEL ==>
        if Find(old(interest), fd).None? then r == Err(NotFound) && interest == old(interest)
        else r.Ok? && UpdatedAt(interest, old(interest), fd, None)
      ensures op !in {EPOLL_CTL_ADD, EPOLL_CTL_MOD, EPOLL_CTL_DEL} ==> r == Err(InvalidValue) && interest == old(interest)
    {
      if op == EPOLL_CTL_ADD {
        if event.Err? { return Err(event.error); }
        if target.None? { return Err(BadFd); }
        if Find(interest, fd).Some? { return Err(AlreadyExists); }
        var item := EpItem(target.value, EpToPoll(event.value.events), event.value.data);
        InsertEffect(interest, fd, item);
        interest := Insert(interest, fd, item);
      } else if op == EPOLL_CTL_MOD {
        if event.Err? { return Err(event.error); }
        var entry := Find(interest, fd);
        if entry.None? { return Err(NotFound); }
        var item := entry.value.(flags := EpToPoll(event.value.events), data := event.value.data);
        ReplaceEffect(interest, fd, item);
        interest := Replace(interest, fd, item);
      } else if op == EPOLL_CTL_DEL {
        if Find(interest, fd).None? { return Err(NotFound); }
        RemoveEffect(interest, fd);
        interest := Remove(interest, fd);
      } else {
        return Err(InvalidValue);
      }
      r := Ok(0);
    }

    /// `sys_epoll_pwait` once its wait ends: `status` is where each entry's
    /// readiness stands, in list order, and `timedOut` whether a timeout
    /// (a non-negative `timeout_ms`) has expired.
    method Pwait(maxevents: int, status: seq<PollStatus>, timedOut: bool) returns (r: Result<PwaitOutcome>)
      requires Valid() && |status| == |interest|
      ensures maxevents <= 0 ==> r == Err(InvalidValue)
      ensures maxevents > 0 ==>
        if FirstFailure(status).Some? then r == Err(FirstFailure(status).value)
        else if |ReadyIndices(status)| == 0 then r == Ok(if timedOut then Events([]) else Waiting)
        else r == Ok(Events(Take(ReadyEvents(interest, status), maxevents)))
    {
      if maxevents <= 0 {
        return Err(InvalidValue);
      }
      var counted := CountReady(status);
      if counted.Err? {
        return Err(counted.error);
      }
      if counted.value == 0 {
        return Ok(if timedOut then Events([]) else Waiting);
      }
      var events := CollectEvents(interest, status, maxevents);
      r := Ok(Events(events));
    }
  }

  /// The readiness count of `epoll_pwait`: a failure, in list order, ends
  /// the count with its error; pending entries are passed over.
  method CountReady(status: seq<PollStatus>) returns (r: Result<nat>)
    ensures FirstFailure(status).Some? ==> r == Err(FirstFailure(status).value)
    ensures FirstFailure(status).None? ==> r == Ok(|ReadyIndices(status)|)
  {
    var readyCount := 0;
    var i := 0;
    while i < |status|
      invariant 0 <= i <= |status|
      invariant FirstFailure(status[..i]).None?
      invariant readyCount == |ReadyIndices(status[..i])|
    {
      assert status[..i + 1][..i] == status[..i];
      if status[i].Failed? {
        assert FirstFailure(status[..i + 1]) == Some(status[i].error);
        FailureStays(status, i + 1);
        return Err(status[i].error);
      }
      if IsReady(status[i]) {
        readyCount := readyCount + 1;
      }
      i := i + 1;
    }
    assert status[..i] == status;
    r := Ok(readyCount);
  }

  /// The copy-out loop of `epoll_pwait`: the ready entries' events in list
  /// order, stopping once `maxevents` are collected.
  method CollectEvents(items: seq<Entry>, status: seq<PollStatus>, maxevents: nat) returns (events: seq<EpollEvent>)
    requires |items| == |status|
    ensures events == Take(ReadyEvents(items, status), maxevents)
  {
    events := [];
    var i := 0;
    while i < |items|
      invariant 0 <= i <= |items|
      invariant events == Take(ReadyEvents(items[..i], status[..i]), maxevents)
    {
      if |events| == maxevents {
        TakeSaturated(items, status, i, maxevents);
        return;
      }
      var flags := if status[i].Ready? then status[i].flags else NO_FLAGS;
      if !IsEmpty(flags) {
        events := events + [EpollEvent(PollToEp(flags), items[i].1.data)];
      }
      ReadyEventsStep(items, status, i);
      i := i + 1;
    }
    assert items[..i] == items && status[..i] == status;
  }

  /// Once a failure is found, it stays the first failure.
  lemma {:induction false} FailureStays(status: seq<PollStatus>, i: nat)
    requires i <= |status| && FirstFailure(status[..i]).Some?
    ensures FirstFailure(status) == FirstFailure(status[..i])
    decreases |status| - i
  {
    if i < |status| {
      assert status[..i + 1][..i] == status[..i];
      FailureStays(status, i + 1);
    } else {
      assert status[..i] == status;
    }
  }

  /// One more entry adds its event, if it is ready, to the end.
  lemma ReadyEventsStep(items: seq<Entry>, status: seq<PollStatus>, i: nat)
    requires |items| == |status| && i < |items|
    ensures ReadyEvents(items[..i + 1], status[..i + 1]) ==
      ReadyEvents(items[..i], status[..i]) + (if IsReady(status[i]) then [EventAt(items, status, i)] else [])
  {
    assert status[..i + 1][..i] == status[..i];
    var a := ReadyEvents(items[..i + 1], status[..i + 1]);
    var b := ReadyEvents(items[..i], status[..i]);
    var c := b + (if IsReady(status[i]) then [EventAt(items, status, i)] else []);
    assert |a| == |c|;
    forall j | 0 <= j < |a|
      ensures a[j] == c[j]
    {
    }
  }

  /// When `n` events have been taken from a prefix, the rest of the list
  /// adds none.
  lemma TakeSaturated(items: seq<Entry>, status: seq<PollStatus>, i: nat, n: nat)
    requires |items| == |status| && i <= |items|
    requires |Take(ReadyEvents(items[..i], status[..i]), n)| == n
    ensures Take(ReadyEvents(items[..i], status[..i]), n) == Take(ReadyEvents(items, status), n)
  {
    ReadyIndicesPrefix(status, i);
    var p := ReadyIndices(status[..i]);
    var q := ReadyIndices(status);
    var a := ReadyEvents(items[..i], status[..i]);
    var b := ReadyEvents(items, status);
    assert |a| == |p| <= |q| == |b|;
    forall j | 0 <= j < n
      ensures a[j] == b[j]
    {
      assert p[j] == q[j];
    }
  }

  // ---------------------------------------------------------------------
  // The copy-out loop as written

  /// How the copy-out loop as written ends: with the events, with a panic
  /// when it polls an entry's future that has already completed, or
  /// waiting for ever on a future that never completes.
  datatype CopyOut = Copied(events: seq<EpollEvent>) | Panicked(at: nat) | Hung(at: nat)

  /// The copy-out loop of `epoll_pwait` as written: it awaits each entry's
  /// poll future a second time. A future that completed during the wait
  /// (`status[i]` not `Pending`) panics when polled again; one still
  /// pending is awaited, and `later[i]` is what it then yields (`Pending`
  /// for one that never completes; a failure counts as no conditions).
  function CopyOutAsWritten(items: seq<Entry>, status: seq<PollStatus>, later: seq<PollStatus>,
                            maxevents: nat, i: nat, events: seq<EpollEvent>): (c: CopyOut)
    requires |items| == |status| == |later| && i <= |items|
    ensures c.Copied? ==> events <= c.events
    decreases |items| - i
  {
    if i == |items| || |events| == maxevents then Copied(events)
    else if !status[i].Pending? then Panicked(i)
    else if later[i].Pending? then Hung(i)
    else
      var flags := if later[i].Ready? then later[i].flags else NO_FLAGS;
      var next := if IsEmpty(flags) then events else events + [EpollEvent(PollToEp(flags), items[i].1.data)];
      CopyOutAsWritten(items, status, later, maxevents, i + 1, next)
  }

  /// From any entry up to one that completed during the wait, the loop as
  /// written either panics by that entry, hangs before it, or has already
  /// gathered `maxevents` events.
  lemma {:induction false} CopyOutReachesCompleted(items: seq<Entry>, status: seq<PollStatus>,
                                                   later: seq<PollStatus>, maxevents: nat, i: nat,
                                                   events: seq<EpollEvent>, k: nat)
    requires |items| == |status| == |later| && i <= k < |items| && !status[k].Pending?
    requires |events| <= maxevents
    ensures match CopyOutAsWritten(items, status, later, maxevents, i, events)
      case Panicked(j) => i <= j <= k
      case Hung(j) => i <= j < k
      case Copied(ev) => |ev| == maxevents
    decreases k - i
  {
    if |events| < maxevents && status[i].Pending? && !later[i].Pending? {
      var flags := if later[i].Ready? then later[i].flags else NO_FLAGS;
      var next := if IsEmpty(flags) then events else events + [EpollEvent(PollToEp(flags), items[i].1.data)];
      CopyOutReachesCompleted(items, status, later, maxevents, i + 1, next, k);
    }
  }

  /// As written, a wait that finds an entry ready never hands that entry's
  /// event out: the copy-out panics at or before the first ready entry,
  /// hangs before it, or fills `maxevents` from entries that were still
  /// pending. In particular, with one watched file that is ready, the call
  /// panics where `CollectEvents` reports the file's event.
  lemma ReadyEntryRePolled(items: seq<Entry>, status: seq<PollStatus>, later: seq<PollStatus>, maxevents: nat)
    requires |items| == |status| == |later| && |ReadyIndices(status)| > 0 && maxevents > 0
    ensures var k := ReadyIndices(status)[0];
      match CopyOutAsWritten(items, status, later, maxevents, 0, [])
      case Panicked(j) => j <= k
      case Hung(j) => j < k
      case Copied(ev) => |ev| == maxevents
    ensures |items| == 1 ==>
      CopyOutAsWritten(items, status, later, maxevents, 0, []) == Panicked(0)
      && Take(ReadyEvents(items, status), maxevents) == [EventAt(items, status, 0)]
  {
    var k := ReadyIndices(status)[0];
    CopyOutReachesCompleted(items, status, later, maxevents, 0, [], k);
    if |items| == 1 {
      assert status[..0] == [];
      assert ReadyIndices(status) == [0];
    }
  }
}
