/// The x86-64 saved user context: sixteen general registers and the
/// instruction pointer, stack pointer and flags, with the accessors the
/// system-call path uses.
module X86Exceptions {
  import opened Common

  type U64 = x: nat | x < U64_LIMIT

  /// `ExceptionState`; `regs[0]` holds rax, `regs[1..7]` rdi, rsi, rdx,
  /// r10, r8 and r9.
  datatype ExceptionState = ExceptionState(regs: seq<U64>, rip: U64, rsp: U64, rflags: U64)

  predicate Valid(s: ExceptionState) {
    |s.regs| == 16
  }

  /// `ExceptionState::default()`: every register zero.
  function Default(): (s: ExceptionState)
    ensures Valid(s) && s.rip == 0 && s.rsp == 0 && s.rflags == 0
    ensures forall i :: 0 <= i < 16 ==> s.regs[i] == 0
  {
    ExceptionState(seq(16, _ => 0), 0, 0, 0)
  }

  /// `syscall_nr`: the number is in rax.
  function SyscallNr(s: ExceptionState): (nr: U64)
    requires Valid(s)
    ensures nr == s.regs[0]
  {
    s.regs[0]
  }

  /// `arg(i)`: the first six arguments are in the registers after rax, in
  /// order; any later one reads as zero.
  function Arg(s: ExceptionState, i: nat): (v: U64)
    requires Valid(s)
    ensures i <= 5 ==> v == s.regs[i + 1]
    ensures i > 5 ==> v == 0
  {
    match i
    case 0 => s.regs[1]
    case 1 => s.regs[2]
    case 2 => s.regs[3]
    case 3 => s.regs[4]
    case 4 => s.regs[5]
    case 5 => s.regs[6]
    case _ => 0
  }

  /// The accessors look at the general registers only: states that differ
  /// in rip, rsp or rflags give the same number and arguments.
  lemma AccessorsIgnoreFrame(s: ExceptionState, rip: U64, rsp: U64, rflags: U64, i: nat)
    requires Valid(s)
    ensures SyscallNr(s.(rip := rip, rsp := rsp, rflags := rflags)) == SyscallNr(s)
    ensures Arg(s.(rip := rip, rsp := rsp, rflags := rflags), i) == Arg(s, i)
  {
  }

  /// Each argument has a register of its own: writing register `k` changes
  /// the argument it holds and no other, and leaves the number alone unless
  /// `k` is rax.
  lemma ArgReadsOneRegister(s: ExceptionState, k: nat, v: U64, i: nat)
    requires Valid(s) && k < 16
    ensures Arg(s.(regs := s.regs[k := v]), i) == if i <= 5 && i + 1 == k then v else Arg(s, i)
    ensures SyscallNr(s.(regs := s.regs[k := v])) == if k == 0 then v else SyscallNr(s)
  {
  }

  /// A fresh user context starts with system-call number zero and all
  /// arguments zero.
  lemma DefaultIsZero(i: nat)
    ensures SyscallNr(Default()) == 0 && Arg(Default(), i) == 0
  {
  }
}
