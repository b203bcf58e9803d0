/// Waiting for children: the per-process table of child state changes,
/// the selection `wait4` and `waitid` make from it, and the status word and
/// signal information they report.
module ChildWait {
  import opened Common

  /// `WaitFlags`, a 32-bit set.
  type WaitFlags = bv32

  const WNOHANG: WaitFlags := 0x0000_0001
  const WSTOPPED: WaitFlags := 0x0000_0002
  const WEXITED: WaitFlags := 0x0000_0004
  const WCONTINUED: WaitFlags := 0x0000_0008
  const WNOWAIT: WaitFlags := 0x1000_0000
  const WNOTHREAD: WaitFlags := 0x2000_0000
  const WALL: WaitFlags := 0x4000_0000
  const WCLONE: WaitFlags := 0x8000_0000

  /// Every flag the type names.
  const KNOWN_FLAGS: WaitFlags := WNOHANG | WSTOPPED | WEXITED | WCONTINUED | WNOWAIT | WNOTHREAD | WALL | WCLONE

  /// A signal number as user space sees it.
  type Signal = s: bv32 | 1 <= s <= 64 witness 1

  const SIGCHLD: Signal := 17

  /// `ChildState`: what happened to a child.
  datatype ChildState =
    | NormalExit(code: bv32)
    | SignalExit(signal: Signal, core: bool)
    | Stop(signal: Signal)
    | TraceTrap(signal: Signal, mask: bv32)
    | Continue

  predicate Has(flags: WaitFlags, f: WaitFlags)
  {
    flags & f == f
  }

  /// `matches_wait_flags`: exits are reported only with `WEXITED`, stops
  /// only with `WSTOPPED`, continues only with `WCONTINUED`, and trace traps
  /// always.
  predicate Matches(s: ChildState, flags: WaitFlags)
  {
    match s
    case NormalExit(_) => Has(flags, WEXITED)
    case SignalExit(_, _) => Has(flags, WEXITED)
    case Stop(_) => Has(flags, WSTOPPED)
    case TraceTrap(_, _) => true
    case Continue => Has(flags, WCONTINUED)
  }

  /// Which children a wait is for.
  datatype Selector =
    | AnyChild            // pid -1
    | InGroup(pgid: nat)  // pid < -1: children in process group -pid
    | Exactly(tgid: int)  // pid >= 0: the child with that id

  /// How the wait helpers read a `pid_t`.
  function PidSelector(pid: int): (sel: Selector)
    ensures sel == AnyChild <==> pid == -1
    ensures sel.InGroup? <==> pid < -1
    ensures sel.InGroup? ==> sel.pgid == -pid
    ensures sel.Exactly? ==> sel.tgid == pid && pid >= 0
  {
    if pid == -1 then AnyChild
    else if pid < -1 then InGroup(-pid)
    else Exactly(pid)
  }

  /// The process group of a thread group, if it still exists.
  type GroupOf = nat -> Option<nat>

  predicate Selects(sel: Selector, k: nat, pgidOf: GroupOf)
  {
    match sel
    case AnyChild => true
    case InGroup(g) => pgidOf(k) == Some(g)
    case Exactly(t) => k == t
  }

  /// A child whose recorded state a wait may report.
  predicate Eligible(states: map<nat, ChildState>, k: nat, sel: Selector, flags: WaitFlags, pgidOf: GroupOf)
  {
    k in states && Matches(states[k], flags) && Selects(sel, k, pgidOf)
  }

  /// The lowest eligible id: the one an in-order scan of the map finds.
  ghost predicate IsLowestEligible(states: map<nat, ChildState>, k: nat, sel: Selector, flags: WaitFlags, pgidOf: GroupOf)
  {
    Eligible(states, k, sel, flags, pgidOf) &&
    forall j :: Eligible(states, j, sel, flags, pgidOf) ==> k <= j
  }

  /// What a scan of the table reports.
  ghost predicate Found(states: map<nat, ChildState>, r: Option<(nat, ChildState)>, sel: Selector, flags: WaitFlags, pgidOf: GroupOf)
  {
    match r
    case Some((k, s)) => IsLowestEligible(states, k, sel, flags, pgidOf) && s == states[k]
    case None => forall j :: !Eligible(states, j, sel, flags, pgidOf)
  }

  /// Two scans of the same table agree: the lowest eligible id is unique.
  lemma FoundUnique(states: map<nat, ChildState>, r1: Option<(nat, ChildState)>, r2: Option<(nat, ChildState)>,
                    sel: Selector, flags: WaitFlags, pgidOf: GroupOf)
    requires Found(states, r1, sel, flags, pgidOf) && Found(states, r2, sel, flags, pgidOf)
    ensures r1 == r2
  {
    match (r1, r2)
    case (Some((k1, _)), Some((k2, _))) =>
      assert k1 <= k2 && k2 <= k1;
    case _ =>
  }

  /// `ChildNotifiers`: the state changes of children not yet reported,
  /// by thread-group id.
  class ChildNotifiers {
    var states: map<nat, ChildState>

    constructor()
      ensures states == map[]
    {
      states := map[];
    }

    /// `child_update`: a newer state replaces an unreported one.
    method ChildUpdate(tgid: nat, s: ChildState)
      modifies this
      ensures states == old(states)[tgid := s]
    {
      states := states[tgid := s];
    }

    /// `find_waitable`: the lowest eligible child and its state; the table
    /// is left as it is.
    method FindWaitable(sel: Selector, flags: WaitFlags, pgidOf: GroupOf) returns (r: Option<(nat, ChildState)>)
      ensures Found(states, r, sel, flags, pgidOf)
    {
      var unseen := states.Keys;
      r := None;
      while unseen != {}
        invariant unseen <= states.Keys
        invariant r.Some? ==>
          && r.value.0 !in unseen && Eligible(states, r.value.0, sel, flags, pgidOf) && r.value.1 == states[r.value.0]
          && forall j :: j !in unseen && Eligible(states, j, sel, flags, pgidOf) ==> r.value.0 <= j
        invariant r.None? ==> forall j :: j !in unseen ==> !Eligible(states, j, sel, flags, pgidOf)
        decreases unseen
      {
        var k :| k in unseen;
        if Eligible(states, k, sel, flags, pgidOf) && (r.None? || k < r.value.0) {
          r := Some((k, states[k]));
        }
        unseen := unseen - {k};
      }
    }

    /// `do_wait`: as `find_waitable`, and the child found is removed.
    method DoWait(sel: Selector, flags: WaitFlags, pgidOf: GroupOf) returns (r: Option<(nat, ChildState)>)
      modifies this
      ensures Found(old(states), r, sel, flags, pgidOf)
      ensures states == if r.Some? then old(states) - {r.value.0} else old(states)
    {
      r := FindWaitable(sel, flags, pgidOf);
      if r.Some? {
        states := states - {r.value.0};
      }
    }
  }

  // ---------------------------------------------------------------------
  // wait4

  /// The flags `wait4` accepts.
  const WAIT4_FLAGS: WaitFlags := WNOHANG | WSTOPPED | WCONTINUED | WNOTHREAD | WCLONE | WALL

  /// `wait4`'s flag and rusage checks: unknown bits or flags outside the
  /// accepted set are invalid, then `WEXITED` is added; a rusage buffer is
  /// not supported.
  function Wait4Flags(flags: WaitFlags, rusageNull: bool): (r: Result<WaitFlags>)
    ensures r.Ok? <==> flags & !WAIT4_FLAGS == 0 && rusageNull
    ensures flags & !WAIT4_FLAGS != 0 ==> r == Err(InvalidValue)
    ensures flags & !WAIT4_FLAGS == 0 && !rusageNull ==> r == Err(NotSupported)
    ensures r.Ok? ==> r.value == flags | WEXITED && Has(r.value, WEXITED)
  {
    if flags & !KNOWN_FLAGS != 0 then Err(InvalidValue)
    else if flags & !WAIT4_FLAGS != 0 then Err(InvalidValue)
    else if !rusageNull then Err(NotSupported)
    else Ok(flags | WEXITED)
  }

  /// The outcome of a wait: a child reported, nothing to report yet under
  /// `WNOHANG` (the call returns 0), or the caller sleeps until a child
  /// becomes eligible.
  datatype WaitOutcome = Reaped(tgid: nat, state: ChildState) | NothingYet | Sleeps

  /// `sys_wait4`, up to the point where it would sleep: with no children or
  /// `WNOHANG` the table is consulted once.
  method Wait4(n: ChildNotifiers, pid: int, flags: WaitFlags, rusageNull: bool, children: nat, pgidOf: GroupOf)
    returns (r: Result<WaitOutcome>)
    modifies n
    ensures var checked := Wait4Flags(flags, rusageNull);
      && (checked.Err? ==> r == Err(checked.error) && n.states == old(n.states))
      && (checked.Ok? && children > 0 && !Has(flags, WNOHANG) ==> r == Ok(Sleeps) && n.states == old(n.states))
      && (checked.Ok? && (children == 0 || Has(flags, WNOHANG)) ==>
            match r
            case Ok(Reaped(k, s)) =>
              Found(old(n.states), Some((k, s)), PidSelector(pid), checked.value, pgidOf)
              && n.states == old(n.states) - {k}
            case _ =>
              Found(old(n.states), None, PidSelector(pid), checked.value, pgidOf)
              && n.states == old(n.states)
              && r == (if children == 0 then Err(NoChildProcess) else Ok(NothingYet)))
  {
    var checked := Wait4Flags(flags, rusageNull);
    if checked.Err? {
      return Err(checked.error);
    }
    if children == 0 || Has(flags, WNOHANG) {
      var found := n.DoWait(PidSelector(pid), checked.value, pgidOf);
      match found
      case Some((k, s)) =>
        r := Ok(Reaped(k, s));
      case None =>
        r := if children == 0 then Err(NoChildProcess) else Ok(NothingYet);
    } else {
      r := Ok(Sleeps);
    }
  }

  // ---------------------------------------------------------------------
  // The wait status word

  /// The status word `wait4` stores, on 32 bits.
  function Status(s: ChildState): bv32
  {
    match s
    case NormalExit(code) => (code & 0xff) << 8
    case SignalExit(sig, core) => sig | (if core then 0x80 else 0)
    case Stop(sig) => (sig << 8) | 0x7f
    case TraceTrap(sig, mask) => (sig << 8) | 0x7f | (mask << 8)
    case Continue => 0xffff
  }

  // The POSIX decoding macros.
  predicate ExitedStatus(w: bv32) { w & 0x7f == 0 }
  function ExitCode(w: bv32): bv32 { (w >> 8) & 0xff }
  predicate SignaledStatus(w: bv32) { w & 0x7f != 0 && w & 0x7f != 0x7f }
  function TermSignal(w: bv32): bv32 { w & 0x7f }
  predicate CoreDumped(w: bv32) { w & 0x80 != 0 }
  predicate StoppedStatus(w: bv32) { w & 0xff == 0x7f }
  function StopSignal(w: bv32): bv32 { (w >> 8) & 0xff }
  predicate ContinuedStatus(w: bv32) { w == 0xffff }

  /// The status word reads back through the POSIX macros as the state it
  /// encodes: a normal exit with the low byte of its code, a signal death
  /// with its signal and core flag, a stop with its signal, a continue;
  /// a trace trap reads as a stop whose signal carries the low byte of the
  /// mask.
  lemma StatusDecodes(s: ChildState)
    ensures var w := Status(s);
      match s
      case NormalExit(code) =>
        ExitedStatus(w) && !StoppedStatus(w) && !ContinuedStatus(w) && ExitCode(w) == code & 0xff
      case SignalExit(sig, core) =>
        SignaledStatus(w) && !ExitedStatus(w) && !StoppedStatus(w) && TermSignal(w) == sig && CoreDumped(w) == core
      case Stop(sig) =>
        StoppedStatus(w) && !ExitedStatus(w) && !SignaledStatus(w) && StopSignal(w) == sig
      case TraceTrap(sig, mask) =>
        StoppedStatus(w) && !ExitedStatus(w) && !SignaledStatus(w) && StopSignal(w) == (sig | mask) & 0xff
      case Continue =>
        ContinuedStatus(w) && !ExitedStatus(w) && !SignaledStatus(w) && !StoppedStatus(w)
  {
    match s
    case NormalExit(code) => ExitDecodes(code);
    case SignalExit(sig, core) => SignalDecodes(sig, core);
    case Stop(sig) => TrapDecodes(sig, 0);
    case TraceTrap(sig, mask) => TrapDecodes(sig, mask);
    case Continue =>
  }

  lemma ExitDecodes(code: bv32)
    ensures var w := (code & 0xff) << 8;
      ExitedStatus(w) && !StoppedStatus(w) && !ContinuedStatus(w) && ExitCode(w) == code & 0xff
  {
  }

  lemma SignalDecodes(sig: bv32, core: bool)
    requires 1 <= sig < 0x7f
    ensures var w := sig | (if core then 0x80 else 0);
      SignaledStatus(w) && !ExitedStatus(w) && !StoppedStatus(w) && TermSignal(w) == sig && CoreDumped(w) == core
  {
  }

  lemma TrapDecodes(sig: bv32, mask: bv32)
    requires 1 <= sig < 0x7f
    ensures var w := (sig << 8) | 0x7f | (mask << 8);
      StoppedStatus(w) && !ExitedStatus(w) && !SignaledStatus(w) && StopSignal(w) == (sig | mask) & 0xff
  {
  }

  // ---------------------------------------------------------------------
  // waitid

  const P_ALL: int := 0
  const P_PID: int := 1
  const P_PGID: int := 2

  /// The flags `waitid` accepts.
  const WAITID_FLAGS: WaitFlags := WNOHANG | WSTOPPED | WCONTINUED | WEXITED | WNOWAIT

  /// `waitid`'s checks: the id type must be one of the three, and the
  /// options must lie in the accepted set.
  function WaitidFlags(idtype: int, options: WaitFlags): (r: Result<WaitFlags>)
    ensures r.Ok? <==> idtype in {P_ALL, P_PID, P_PGID} && options & !WAITID_FLAGS == 0
    ensures r.Err? ==> r.error == InvalidValue
    ensures r.Ok? ==> r.value == options
  {
    if idtype != P_ALL && idtype != P_PID && idtype != P_PGID then Err(InvalidValue)
    else if options & !KNOWN_FLAGS != 0 then Err(InvalidValue)
    else if options & !WAITID_FLAGS != 0 then Err(InvalidValue)
    else Ok(options)
  }

  function Abs(x: int): nat
  {
    if x < 0 then -x else x
  }

  /// The pid `waitid` hands to the wait helpers: -1 for `P_ALL`, the id
  /// for `P_PID`, minus its absolute value for `P_PGID`.
  function WaitidPidAsWritten(idtype: int, id: int): int
    requires idtype in {P_ALL, P_PID, P_PGID}
  {
    if idtype == P_ALL then -1 else if idtype == P_PID then id else -(Abs(id) as int)
  }

  /// The negative pid collides with "any child" for group 1: waiting on
  /// process group 1 reports a child of another group.
  lemma WaitidGroupOneMeansAny(states: map<nat, ChildState>, k: nat, flags: WaitFlags, pgidOf: GroupOf)
    requires k in states && Matches(states[k], flags) && pgidOf(k) == Some(7)
    ensures PidSelector(WaitidPidAsWritten(P_PGID, 1)) == AnyChild
    ensures Eligible(states, k, PidSelector(WaitidPidAsWritten(P_PGID, 1)), flags, pgidOf)
    ensures !Eligible(states, k, WaitidSelector(P_PGID, 1), flags, pgidOf)
  {
  }

  /// The selection `waitid` means: everything for `P_ALL`, the pid rule
  /// for `P_PID`, and the process group `|id|` for `P_PGID`.
  function WaitidSelector(idtype: int, id: int): (sel: Selector)
    requires idtype in {P_ALL, P_PID, P_PGID}
    ensures idtype == P_PGID ==> sel == InGroup(Abs(id))
    ensures idtype == P_ALL ==> sel == AnyChild
  {
    if idtype == P_ALL then AnyChild
    else if idtype == P_PID then PidSelector(id)
    else InGroup(Abs(id))
  }

  /// The two agree except on `P_PGID` with an id of -1, 0 or 1.
  lemma WaitidSelectorAgrees(idtype: int, id: int)
    requires idtype in {P_ALL, P_PID, P_PGID}
    ensures idtype != P_PGID || Abs(id) >= 2 <==>
      WaitidSelector(idtype, id) == PidSelector(WaitidPidAsWritten(idtype, id))
  {
  }

  // si_code values for SIGCHLD.
  const CLD_EXITED: bv32 := 1
  const CLD_KILLED: bv32 := 2
  const CLD_DUMPED: bv32 := 3
  const CLD_STOPPED: bv32 := 4
  const CLD_TRAPPED: bv32 := 5
  const CLD_CONTINUED: bv32 := 6

  /// The `SigInfo` `waitid` fills.
  datatype SigInfo = SigInfo(signo: bv32, code: bv32, errno: bv32)

  function SigInfoOf(s: ChildState): (info: SigInfo)
    ensures info.signo == SIGCHLD
  {
    match s
    case NormalExit(code) => SigInfo(SIGCHLD, CLD_EXITED, code)
    case SignalExit(sig, core) => SigInfo(SIGCHLD, if core then CLD_DUMPED else CLD_KILLED, sig)
    case Stop(sig) => SigInfo(SIGCHLD, CLD_STOPPED, sig)
    case TraceTrap(sig, _) => SigInfo(SIGCHLD, CLD_TRAPPED, sig)
    case Continue => SigInfo(SIGCHLD, CLD_CONTINUED, 0)
  }

  /// The code tells the kind of state change apart, and for everything
  /// but a normal exit and a continue the errno field is the signal.
  lemma SigInfoDistinguishes(a: ChildState, b: ChildState)
    ensures SigInfoOf(a).code == SigInfoOf(b).code <==>
      (a.NormalExit? && b.NormalExit?) || (a.Stop? && b.Stop?) || (a.TraceTrap? && b.TraceTrap?)
      || (a.Continue? && b.Continue?) || (a.SignalExit? && b.SignalExit? && a.core == b.core)
    ensures 1 <= SigInfoOf(a).code <= 6
    ensures (a.SignalExit? || a.Stop? || a.TraceTrap?) ==> SigInfoOf(a).errno == a.signal
  {
  }

  /// `sys_waitid`, up to the point where it would sleep, with the selection
  /// corrected for process groups. With `WNOWAIT` the child is reported
  /// and stays in the table.
  method Waitid(n: ChildNotifiers, idtype: int, id: int, options: WaitFlags, children: nat, pgidOf: GroupOf)
    returns (r: Result<WaitOutcome>)
    modifies n
    ensures var checked := WaitidFlags(idtype, options);
      && (checked.Err? ==> r == Err(InvalidValue) && n.states == old(n.states))
      && (checked.Ok? && children > 0 && !Has(options, WNOHANG) ==> r == Ok(Sleeps) && n.states == old(n.states))
      && (checked.Ok? && (children == 0 || Has(options, WNOHANG)) ==>
            var sel := WaitidSelector(idtype, id);
            match r
            case Ok(Reaped(k, s)) =>
              Found(old(n.states), Some((k, s)), sel, options, pgidOf)
              && n.states == (if Has(options, WNOWAIT) then old(n.states) else old(n.states) - {k})
            case _ =>
              Found(old(n.states), None, sel, options, pgidOf)
              && n.states == old(n.states)
              && r == (if children == 0 then Err(NoChildProcess) else Ok(NothingYet)))
  {
    var checked := WaitidFlags(idtype, options);
    if checked.Err? {
      return Err(checked.error);
    }
    if children == 0 || Has(options, WNOHANG) {
      var sel := WaitidSelector(idtype, id);
      var found;
      if Has(options, WNOWAIT) {
        found := n.FindWaitable(sel, options, pgidOf);
      } else {
        found := n.DoWait(sel, options, pgidOf);
      }
      match found
      case Some((k, s)) =>
        r := Ok(Reaped(k, s));
      case None =>
        r := if children == 0 then Err(NoChildProcess) else Ok(NothingYet);
    } else {
      r := Ok(Sleeps);
    }
  }
}
