/// `clock_settime`: the checks on the new time, the clock it is for, and
/// the hand-over of a real-time value to the wall clock.
module ClockSettime {
  import opened Common
  import Timer
  import Realtime

  /// The clocks, numbered as Linux numbers them.
  datatype ClockId =
    | ClockRealtime | Monotonic | ProcessCpuTimeId | ThreadCpuTimeId | MonotonicRaw
    | RealtimeCoarse | MonotonicCoarse | BootTime | RealtimeAlarm | BootTimeAlarm | Tai

  /// `ClockId::try_from`: the clock with number `id`, if there is one.
  function ClockFromId(id: int): (c: Option<ClockId>)
    ensures c.None? <==> id < 0 || id == 10 || id > 11
  {
    match id
    case 0 => Some(ClockRealtime)
    case 1 => Some(Monotonic)
    case 2 => Some(ProcessCpuTimeId)
    case 3 => Some(ThreadCpuTimeId)
    case 4 => Some(MonotonicRaw)
    case 5 => Some(RealtimeCoarse)
    case 6 => Some(MonotonicCoarse)
    case 7 => Some(BootTime)
    case 8 => Some(RealtimeAlarm)
    case 9 => Some(BootTimeAlarm)
    case 11 => Some(Tai)
    case _ => None
  }

  /// A `timespec` as the caller wrote it: signed seconds and nanoseconds.
  datatype TimeSpec = TimeSpec(tvSec: int, tvNsec: int)

  /// `sys_clock_settime` as written, given the `timespec` copied from the
  /// caller: the time the wall clock is to be set to, or the error. The
  /// check on the time comes before the clock number is looked at; only
  /// the real-time clock can be set, the monotonic ones never, and the
  /// rest are not supported.
  function SettimeAsWritten(clockId: int, ts: Result<TimeSpec>): (r: Result<TimeSpec>)
    ensures ts.Err? ==> r == Err(ts.error)
    ensures ts.Ok? && (ts.value.tvSec < 0 || ts.value.tvNsec >= Timer.NANOS_PER_SEC) ==> r == Err(InvalidValue)
    ensures r.Ok? <==>
      ts.Ok? && ts.value.tvSec >= 0 && ts.value.tvNsec < Timer.NANOS_PER_SEC && ClockFromId(clockId) == Some(ClockRealtime)
    ensures r.Ok? ==> r.value == ts.value
    ensures r.Err? && ts.Ok? ==> r.error == InvalidValue || r.error == NotSupported
    ensures r.Err? && ts.Ok? ==>
      (r.error == NotSupported <==>
         ts.value.tvSec >= 0 && ts.value.tvNsec < Timer.NANOS_PER_SEC && ClockFromId(clockId).Some?
         && ClockFromId(clockId).value !in {ClockRealtime, Monotonic, MonotonicCoarse, MonotonicRaw})
  {
    match ts
    case Err(e) => Err(e)
    case Ok(t) =>
      if t.tvSec < 0 || t.tvNsec >= Timer.NANOS_PER_SEC then Err(InvalidValue)
      else match ClockFromId(clockId)
        case None => Err(InvalidValue)
        case Some(Monotonic) => Err(InvalidValue)
        case Some(MonotonicCoarse) => Err(InvalidValue)
        case Some(MonotonicRaw) => Err(InvalidValue)
        case Some(ClockRealtime) => Ok(t)
        case Some(_) => Err(NotSupported)
  }

  /// The check lets a negative nanosecond count through to the clock.
  lemma NegativeNanosAccepted()
    ensures SettimeAsWritten(0, Ok(TimeSpec(0, -1))) == Ok(TimeSpec(0, -1))
  {
  }

  /// `sys_clock_settime` with the nanoseconds also required to be
  /// non-negative, so every accepted time is a duration: whole seconds and
  /// fewer than a second's nanoseconds. It is otherwise the same call.
  function Settime(clockId: int, ts: Result<TimeSpec>): (r: Result<Timer.Duration>)
    ensures ts.Ok? && ts.value.tvNsec >= 0 ==>
      (r.Ok? <==> SettimeAsWritten(clockId, ts).Ok?)
      && (r.Ok? ==> Realtime.TotalNanos(r.value) == ts.value.tvSec * Timer.NANOS_PER_SEC + ts.value.tvNsec)
      && (r.Err? ==> r.error == SettimeAsWritten(clockId, ts).error)
    ensures ts.Ok? && ts.value.tvNsec < 0 ==> r == Err(InvalidValue)
    ensures ts.Err? ==> r == Err(ts.error)
  {
    match ts
    case Err(e) => Err(e)
    case Ok(t) =>
      if t.tvNsec < 0 then Err(InvalidValue)
      else match SettimeAsWritten(clockId, ts)
        case Err(e) => Err(e)
        case Ok(_) => Ok(Timer.Duration(t.tvSec, t.tvNsec))
  }

  /// `sys_clock_settime` to the end: an accepted time is handed to
  /// `set_date` and the call returns 0; otherwise the wall clock is left
  /// alone.
  method SysClockSettime(clock: Realtime.RealtimeClock, timer: Timer.SysTimer?, now: Timer.Instant,
                         clockId: int, ts: Result<TimeSpec>) returns (r: Result<nat>)
    modifies clock
    ensures Settime(clockId, ts).Err? ==> r == Err(Settime(clockId, ts).error) && clock.epoch == old(clock.epoch)
    ensures Settime(clockId, ts).Ok? ==>
      r == Ok(0) && clock.epoch == (if timer != null then Some((Settime(clockId, ts).value, now)) else old(clock.epoch))
  {
    match Settime(clockId, ts)
    case Err(e) =>
      r := Err(e);
    case Ok(d) =>
      clock.SetDate(timer, now, d);
      r := Ok(0);
  }
}
