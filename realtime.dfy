/// The wall clock: a date is kept as a known duration since the epoch at a
/// known instant of the monotonic timer, and read by adding the time
/// elapsed since that instant.
module Realtime {
  import opened Common
  import Timer

  /// A duration as a count of nanoseconds.
  function TotalNanos(d: Timer.Duration): nat {
    d.secs * Timer.NANOS_PER_SEC + d.nanos
  }

  /// `Duration + Duration`: nanoseconds past a second carry into the
  /// seconds.
  function AddDurations(a: Timer.Duration, b: Timer.Duration): (r: Timer.Duration)
    ensures TotalNanos(r) == TotalNanos(a) + TotalNanos(b)
  {
    var nanos := a.nanos + b.nanos;
    if nanos >= Timer.NANOS_PER_SEC then Timer.Duration(a.secs + b.secs + 1, nanos - Timer.NANOS_PER_SEC)
    else Timer.Duration(a.secs + b.secs, nanos)
  }

  /// `(a * c + x) / c == a + x / c`.
  lemma DivShift(a: nat, c: nat, x: nat)
    requires c > 0
    ensures (a * c + x) / c == a + x / c
  {
    assert a * c + x == (a + x / c) * c + x % c;
    DivAdd(a + x / c, c, x % c);
  }

  /// `a - b` in nanoseconds is the elapsed ticks scaled to nanoseconds,
  /// rounded down.
  lemma SubNanos(a: Timer.Instant, b: Timer.Instant)
    requires a.freq > 0
    ensures TotalNanos(Timer.Sub(a, b)) == ((if a.ticks > b.ticks then a.ticks - b.ticks else 0) * Timer.NANOS_PER_SEC) / a.freq
  {
    var f := a.freq;
    var n := Timer.NANOS_PER_SEC;
    if a.ticks > b.ticks {
      var diff := a.ticks - b.ticks;
      Timer.SubLater(a, b);
      var s := diff / f;
      var r := diff % f;
      assert diff == s * f + r;
      assert diff * n == (s * n) * f + r * n by {
        assert diff * n == (s * f + r) * n;
      }
      DivShift(s * n, f, r * n);
    }
  }

  /// Elapsed time never runs backwards: a later reading of the timer gives
  /// at least as long a span since the same instant.
  lemma SubMonotone(a1: Timer.Instant, a2: Timer.Instant, b: Timer.Instant)
    requires a1.freq == a2.freq > 0 && a1.ticks <= a2.ticks
    ensures TotalNanos(Timer.Sub(a1, b)) <= TotalNanos(Timer.Sub(a2, b))
  {
    SubNanos(a1, b);
    SubNanos(a2, b);
    var d1 := if a1.ticks > b.ticks then a1.ticks - b.ticks else 0;
    var d2 := if a2.ticks > b.ticks then a2.ticks - b.ticks else 0;
    MulLe(d1, d2, Timer.NANOS_PER_SEC);
    Timer.DivMonotone(d1 * Timer.NANOS_PER_SEC, d2 * Timer.NANOS_PER_SEC, a1.freq);
  }

  /// `EPOCH_DURATION`: the date known at an instant, once one is set.
  class RealtimeClock {
    var epoch: Option<(Timer.Duration, Timer.Instant)>

    constructor()
      ensures epoch.None?
    {
      epoch := None;
    }

    /// `date`: the known date plus the time since its instant, when a date
    /// is known and a timer runs; otherwise the uptime.
    function Date(timer: Timer.SysTimer?, now: Timer.Instant): (d: Timer.Duration)
      requires now.freq > 0
      reads this
      ensures epoch.None? || timer == null ==> d == Timer.Uptime(timer, now)
      ensures epoch.Some? && timer != null ==>
        TotalNanos(d) == TotalNanos(epoch.value.0) + TotalNanos(Timer.Sub(now, epoch.value.1))
    {
      if epoch.Some? && timer != null then AddDurations(epoch.value.0, Timer.Sub(now, epoch.value.1))
      else Timer.Uptime(timer, now)
    }

    /// `set_date`: the date is recorded against the current instant, and
    /// only when a timer runs to give one.
    method SetDate(timer: Timer.SysTimer?, now: Timer.Instant, date: Timer.Duration)
      modifies this
      ensures epoch == if timer != null then Some((date, now)) else old(epoch)
    {
      if timer != null {
        epoch := Some((date, now));
      }
    }
  }

  /// Once a date is set, reading it at the same instant gives it back and
  /// reading it later gives at least as much; reading it later still never
  /// gives less.
  lemma DateAfterSet(clock: RealtimeClock, timer: Timer.SysTimer, date: Timer.Duration,
                     setAt: Timer.Instant, now1: Timer.Instant, now2: Timer.Instant)
    requires clock.epoch == Some((date, setAt))
    requires setAt.freq > 0 && now1.freq == now2.freq == setAt.freq && now1.ticks <= now2.ticks
    ensures TotalNanos(clock.Date(timer, setAt)) == TotalNanos(date)
    ensures TotalNanos(date) <= TotalNanos(clock.Date(timer, now1)) <= TotalNanos(clock.Date(timer, now2))
  {
    SubNanos(setAt, setAt);
    SubMonotone(now1, now2, setAt);
  }
}
