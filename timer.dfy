/// The system timer: monotonic instants counted in hardware ticks, the
/// arithmetic between instants and durations, and the queue of wake-ups the
/// timer interrupt serves.
module Timer {
  import opened Common

  const NANOS_PER_SEC: nat := 1_000_000_000

  type Nanos = n: nat | n < NANOS_PER_SEC

  /// A span of time: whole seconds and the nanoseconds past them.
  datatype Duration = Duration(secs: nat, nanos: Nanos)

  const ZERO := Duration(0, 0)

  predicate IsZero(d: Duration) {
    d.secs == 0 && d.nanos == 0
  }

  /// A point in monotonic time: a tick count of a counter running at
  /// `freq` ticks per second.
  datatype Instant = Instant(ticks: nat, freq: nat)

  /// The ordering of instants: -1, 0 or 1 as the tick counts compare; the
  /// frequency is not looked at.
  function Compare(a: Instant, b: Instant): (c: int)
    ensures c == 0 <==> a.ticks == b.ticks
    ensures c < 0 <==> a.ticks < b.ticks
    ensures c > 0 <==> a.ticks > b.ticks
  {
    if a.ticks < b.ticks then -1 else if a.ticks == b.ticks then 0 else 1
  }

  /// Ordering is a total preorder on tick counts: antisymmetric in sign
  /// and transitive.
  lemma CompareOrder(a: Instant, b: Instant, c: Instant)
    ensures Compare(a, b) == -Compare(b, a)
    ensures Compare(a, b) <= 0 && Compare(b, c) <= 0 ==> Compare(a, c) <= 0
    ensures Compare(a, b) == 0 && a.freq != b.freq ==> a != b
  {
  }

  /// `i + d`: whole seconds become `secs * freq` ticks and the nanoseconds
  /// the ticks they fill, rounded down; the frequency is kept.
  function Add(i: Instant, d: Duration): (r: Instant)
    ensures r.freq == i.freq
    ensures i.ticks + d.secs * i.freq <= r.ticks <= i.ticks + d.secs * i.freq + i.freq
  {
    var nsecsTick := (i.freq * d.nanos) / NANOS_PER_SEC;
    NanosTicksBelow(i.freq, d.nanos);
    Instant(i.ticks + d.secs * i.freq + nsecsTick, i.freq)
  }

  /// The ticks a sub-second span fills are fewer than a second's worth.
  lemma NanosTicksBelow(freq: nat, nanos: Nanos)
    ensures (freq * nanos) / NANOS_PER_SEC <= freq
    ensures freq > 0 ==> (freq * nanos) / NANOS_PER_SEC < freq
  {
    if freq > 0 {
      assert freq * nanos < freq * NANOS_PER_SEC;
      DivBelow(freq * nanos, NANOS_PER_SEC, freq);
    }
  }

  /// `a - b`: the ticks by which `a` is later than `b` (zero when it is
  /// not), as whole seconds and the nanoseconds of the remaining ticks,
  /// rounded down.
  function Sub(a: Instant, b: Instant): (d: Duration)
    requires a.freq > 0
    ensures a.ticks <= b.ticks ==> d == ZERO
    ensures a.ticks > b.ticks ==>
      var diff := a.ticks - b.ticks;
      && d.secs * a.freq <= diff < d.secs * a.freq + a.freq
      && d.nanos * a.freq <= (diff - d.secs * a.freq) * NANOS_PER_SEC
      && (diff - d.secs * a.freq) * NANOS_PER_SEC < d.nanos * a.freq + a.freq
  {
    var diff := if a.ticks > b.ticks then a.ticks - b.ticks else 0;
    var secs := diff / a.freq;
    var rest := diff % a.freq;
    assert rest * NANOS_PER_SEC < NANOS_PER_SEC * a.freq;
    DivBelow(rest * NANOS_PER_SEC, a.freq, NANOS_PER_SEC);
    Duration(secs, (rest * NANOS_PER_SEC) / a.freq)
  }

  /// `x <= y` gives `x / d <= y / d`.
  lemma DivMonotone(x: nat, y: nat, d: nat)
    requires d > 0 && x <= y
    ensures x / d <= y / d
  {
    if x / d > y / d {
      MulLe(y / d + 1, x / d, d);
      assert false;
    }
  }

  /// Rounding down then multiplying back never overshoots.
  lemma DivMulBelow(x: nat, d: nat)
    requires d > 0
    ensures (x / d) * d <= x
  {
  }

  /// `a - b` for `a` later than `b`, spelled out.
  lemma SubLater(a: Instant, b: Instant)
    requires a.freq > 0 && a.ticks > b.ticks
    ensures Sub(a, b) == Duration((a.ticks - b.ticks) / a.freq, (((a.ticks - b.ticks) % a.freq) * NANOS_PER_SEC) / a.freq)
  {
  }

  /// Adding a duration and taking the start back off gives the whole
  /// seconds exactly and no more than the nanoseconds: only the part of a
  /// tick that `+` rounded off is lost.
  lemma AddThenSub(i: Instant, d: Duration)
    requires i.freq > 0
    ensures Sub(Add(i, d), i).secs == d.secs
    ensures Sub(Add(i, d), i).nanos <= d.nanos
  {
    var f := i.freq;
    var k := (f * d.nanos) / NANOS_PER_SEC;
    NanosTicksBelow(f, d.nanos);
    var later := Add(i, d);
    var diff := d.secs * f + k;
    assert later.ticks == i.ticks + diff;
    if diff == 0 {
      assert d.secs * f == 0;
    } else {
      SubLater(later, i);
      DivAdd(d.secs, f, k);
      assert diff / f == d.secs && diff % f == k;
      DivMulBelow(f * d.nanos, NANOS_PER_SEC);
      DivMonotone(k * NANOS_PER_SEC, f * d.nanos, f);
      DivAdd(d.nanos, f, 0);
      assert (f * d.nanos) / f == d.nanos;
    }
  }

  /// A wake-up: the instant it is due and the task it wakes.
  datatype WakeupEvent = WakeupEvent(when: Instant, task: nat)

  /// The wake-up heap's ordering: the reverse of the due instants', so the
  /// greatest event, the one a max-heap hands out first, is the earliest.
  function EventCompare(a: WakeupEvent, b: WakeupEvent): (c: int)
    ensures c == -Compare(a.when, b.when)
  {
    -Compare(a.when, b.when)
  }

  /// An event is greatest in the heap's order exactly when no other event
  /// is due before it.
  lemma GreatestIsEarliest(e: WakeupEvent, q: seq<WakeupEvent>)
    ensures (forall i :: 0 <= i < |q| ==> EventCompare(e, q[i]) >= 0)
        <==> (forall i :: 0 <= i < |q| ==> e.when.ticks <= q[i].when.ticks)
  {
  }

  /// The heap in the order it hands events out: due instants ascending.
  predicate SortedByWhen(q: seq<WakeupEvent>) {
    forall i, j :: 0 <= i < j < |q| ==> q[i].when.ticks <= q[j].when.ticks
  }

  /// `q` with `e` placed after every event due no later than it.
  function InsertEvent(q: seq<WakeupEvent>, e: WakeupEvent): (r: seq<WakeupEvent>)
    requires SortedByWhen(q)
    ensures SortedByWhen(r)
    ensures multiset(r) == multiset(q) + multiset{e}
    ensures |r| == |q| + 1
    ensures r[0].when.ticks == if q == [] || e.when.ticks < q[0].when.ticks then e.when.ticks else q[0].when.ticks
    decreases |q|
  {
    if q == [] || e.when.ticks < q[0].when.ticks then [e] + q
    else
      var rest := InsertEvent(q[1..], e);
      assert q == [q[0]] + q[1..];
      [q[0]] + rest
  }

  /// How many events at the front of `q` are due at `now`.
  function DueCount(q: seq<WakeupEvent>, now: Instant): (n: nat)
    ensures n <= |q|
    decreases |q|
  {
    if q == [] || q[0].when.ticks > now.ticks then 0 else 1 + DueCount(q[1..], now)
  }

  /// In a sorted queue the due events are exactly the first `DueCount`.
  lemma {:induction false} DueSplit(q: seq<WakeupEvent>, now: Instant)
    requires SortedByWhen(q)
    ensures forall i :: 0 <= i < DueCount(q, now) ==> q[i].when.ticks <= now.ticks
    ensures forall i :: DueCount(q, now) <= i < |q| ==> q[i].when.ticks > now.ticks
    decreases |q|
  {
    if q != [] && q[0].when.ticks <= now.ticks {
      DueSplit(q[1..], now);
      forall i | 1 <= i < |q|
        ensures q[i] == q[1..][i - 1]
      {
      }
    }
  }

  function Tasks(q: seq<WakeupEvent>): (t: seq<nat>)
    ensures |t| == |q| && forall i :: 0 <= i < |q| ==> t[i] == q[i].task
  {
    seq(|q|, i requires 0 <= i < |q| => q[i].task)
  }

  function Head(q: seq<WakeupEvent>): (h: Option<Instant>)
    ensures h.None? <==> q == []
    ensures q != [] ==> h == Some(q[0].when)
  {
    if q == [] then None else Some(q[0].when)
  }

  /// `SysTimer`: the instant it started, its wake-up heap (kept in the
  /// order the heap hands events out), the interrupt last asked of the
  /// hardware timer and, in order, the tasks it has woken.
  class SysTimer {
    const startTime: Instant
    var queue: seq<WakeupEvent>
    var scheduled: Option<Instant>
    var woken: seq<nat>

    predicate Valid()
      reads this
    {
      SortedByWhen(queue)
    }

    /// `from_driver`: starts now with an empty heap.
    constructor FromDriver(now: Instant)
      ensures Valid()
      ensures startTime == now && queue == [] && woken == [] && scheduled == None
    {
      startTime := now;
      queue := [];
      scheduled := None;
      woken := [];
    }

    /// `handle_irq`: wakes every event due at `now`, earliest first, keeps
    /// the later ones and asks for the next interrupt at the new head, or
    /// for none.
    method HandleIrq(now: Instant)
      requires Valid()
      modifies this
      ensures Valid()
      ensures var n := DueCount(old(queue), now);
        && queue == old(queue)[n..]
        && woken == old(woken) + Tasks(old(queue)[..n])
      ensures forall i :: 0 <= i < |queue| ==> queue[i].when.ticks > now.ticks
      ensures scheduled == Head(queue)
    {
      DueSplit(queue, now);
      ghost var q0 := queue;
      var n := 0;
      while |queue| > 0 && queue[0].when.ticks <= now.ticks
        invariant 0 <= n <= DueCount(q0, now)
        invariant queue == q0[n..]
        invariant woken == old(woken) + Tasks(q0[..n])
        invariant DueCount(q0, now) == n + DueCount(queue, now)
        decreases |queue|
      {
        assert q0[..n + 1] == q0[..n] + [queue[0]];
        woken := woken + [queue[0].task];
        queue := queue[1..];
        n := n + 1;
      }
      scheduled := Head(queue);
    }

    /// One poll of `SysTimer::sleep` for a wake-up due at `when`: ready
    /// once `now` has reached it; otherwise the event is pushed and the
    /// hardware asked for an interrupt at the earliest event.
    method SleepPoll(when: Instant, now: Instant, task: nat) returns (ready: bool)
      requires Valid()
      modifies this
      ensures Valid()
      ensures woken == old(woken)
      ensures ready <==> now.ticks >= when.ticks
      ensures ready ==> queue == old(queue) && scheduled == old(scheduled)
      ensures !ready ==>
        && multiset(queue) == multiset(old(queue)) + multiset{WakeupEvent(when, task)}
        && scheduled == Head(queue)
        && scheduled.value.ticks == Min(when.ticks, if old(queue) == [] then when.ticks else old(queue)[0].when.ticks)
    {
      if now.ticks >= when.ticks {
        return true;
      }
      queue := InsertEvent(queue, WakeupEvent(when, task));
      scheduled := Head(queue);
      ready := false;
    }
  }

  /// The time since the timer started; zero when no timer is installed.
  function Uptime(timer: SysTimer?, now: Instant): (d: Duration)
    requires now.freq > 0
    ensures timer == null ==> d == ZERO
    ensures timer != null ==> d == Sub(now, timer.startTime)
  {
    if timer == null then ZERO else Sub(now, timer.startTime)
  }

  datatype SleepOutcome = Done | Pending

  /// `sleep`: a zero duration, or no timer, returns at once; otherwise the
  /// wake-up is `start + duration` and the first poll happens at `now`.
  method Sleep(timer: SysTimer?, duration: Duration, start: Instant, now: Instant, task: nat) returns (r: SleepOutcome)
    requires timer != null ==> timer.Valid()
    modifies timer
    ensures IsZero(duration) || timer == null ==> r == Done
    ensures timer != null ==> timer.Valid() && timer.woken == old(timer.woken)
    ensures timer != null && !IsZero(duration) ==>
      (r == Done <==> now.ticks >= Add(start, duration).ticks)
    ensures timer != null && !IsZero(duration) && r == Pending ==>
      multiset(timer.queue) == multiset(old(timer.queue)) + multiset{WakeupEvent(Add(start, duration), task)}
    ensures r == Done ==> timer == null || timer.queue == old(timer.queue)
  {
    if IsZero(duration) || timer == null {
      return Done;
    }
    var ready := timer.SleepPoll(Add(start, duration), now, task);
    r := if ready then Done else Pending;
  }
}
