/// Task identity and the small value types of a task: the descriptor packed
/// into one pointer, the state letter, the command name and the scheduling
/// weight.
module Process {
  import opened Common

  /// A thread-group or thread id: a 32-bit unsigned value.
  type Id = x: nat | x < U32_LIMIT

  /// `TaskDescriptor`: a task's thread group and thread.
  datatype TaskDescriptor = TaskDescriptor(tgid: Id, tid: Id)

  /// `this_cpus_idle`: the idle task is group 0, thread 0.
  const IDLE: TaskDescriptor := TaskDescriptor(0, 0)

  /// `to_ptr`: the group id in the low 32 bits of a 64-bit word and the
  /// thread id in the high 32 bits.
  function ToPtr(d: TaskDescriptor): (v: nat)
    ensures v < U64_LIMIT
    ensures v % U32_LIMIT == d.tgid && v / U32_LIMIT == d.tid
  {
    DivAdd(d.tid, U32_LIMIT, d.tgid);
    d.tid * U32_LIMIT + d.tgid
  }

  /// `from_ptr`: the low and high halves of a 64-bit word.
  function FromPtr(v: nat): (d: TaskDescriptor)
    requires v < U64_LIMIT
  {
    DivBelow(v, U32_LIMIT, U32_LIMIT);
    TaskDescriptor(v % U32_LIMIT, v / U32_LIMIT)
  }

  /// `from_ptr` inverts `to_ptr` on every descriptor.
  lemma FromToPtr(d: TaskDescriptor)
    ensures FromPtr(ToPtr(d)) == d
  {
  }

  /// And `to_ptr` inverts `from_ptr` on every 64-bit word.
  lemma ToFromPtr(v: nat)
    requires v < U64_LIMIT
    ensures ToPtr(FromPtr(v)) == v
  {
    var d := FromPtr(v);
    assert v == d.tid * U32_LIMIT + d.tgid;
  }

  /// The idle task is the null pointer.
  lemma IdleIsNull()
    ensures ToPtr(IDLE) == 0 && FromPtr(0) == IDLE
  {
  }

  /// `TaskState`.
  datatype TaskState = Running | Runnable | Woken | Stopped | Sleeping | Finished

  /// The letter `Display` writes for a state.
  function StateLetter(s: TaskState): string
  {
    match s
    case Running => "R"
    case Runnable => "R"
    case Woken => "W"
    case Stopped => "T"
    case Sleeping => "S"
    case Finished => "Z"
  }

  /// Two states print alike exactly when they are equal or are the two
  /// runnable states; `Z` is printed for a finished task only.
  lemma StateLetterDistinguishes(a: TaskState, b: TaskState)
    ensures StateLetter(a) == StateLetter(b) <==>
      a == b || ({a, b} == {Running, Runnable})
    ensures StateLetter(a) == "Z" <==> IsFinished(a)
  {
  }

  function IsFinished(s: TaskState): bool
  {
    s == Finished
  }

  // ---------------------------------------------------------------------
  // The command name

  /// `Comm`: a 16-byte command name.
  datatype Comm = Comm(bytes: seq<byte>)

  const COMM_LEN: nat := 16

  /// `n` zero bytes.
  function Zeros(n: nat): (z: seq<byte>)
    ensures |z| == n && forall i :: 0 <= i < n ==> z[i] == 0
  {
    if n == 0 then [] else [0 as byte] + Zeros(n - 1)
  }

  /// `Comm::new`: the first at most 15 bytes of the name, then zeros.
  function New(name: seq<byte>): (c: Comm)
    ensures |c.bytes| == COMM_LEN
    ensures c.bytes[..Min(|name|, 15)] == name[..Min(|name|, 15)]
    ensures forall i :: Min(|name|, 15) <= i < COMM_LEN ==> c.bytes[i] == 0
  {
    var len := Min(|name|, 15);
    Comm(name[..len] + Zeros(COMM_LEN - len))
  }

  /// The fifteen-byte cap leaves the last byte a terminator.
  lemma NewTerminated(name: seq<byte>)
    ensures New(name).bytes[15] == 0
  {
  }

  /// The bytes before the first NUL.
  function BeforeNul(s: seq<byte>): (r: seq<byte>)
    ensures r <= s && 0 !in r
    ensures |r| < |s| ==> s[|r|] == 0
  {
    if |s| == 0 || s[0] == 0 then [] else [s[0]] + BeforeNul(s[1..])
  }

  /// `Comm::as_str`: the bytes before the first NUL when they are UTF-8,
  /// otherwise the empty string.
  function AsStr(c: Comm): (r: seq<byte>)
    ensures ValidUtf8(BeforeNul(c.bytes)) ==> r == BeforeNul(c.bytes)
    ensures !ValidUtf8(BeforeNul(c.bytes)) ==> r == []
    ensures 0 !in r
  {
    var s := BeforeNul(c.bytes);
    if ValidUtf8(s) then s else []
  }

  // ---------------------------------------------------------------------
  // Well-formed UTF-8, as `core::str::from_utf8` accepts it (the table of
  // well-formed byte sequences in the Unicode standard, section 3.9)

  predicate Continuation(b: byte)
  {
    0x80 <= b <= 0xBF
  }

  /// The length of the well-formed character `s` starts with, if any.
  function CharLen(s: seq<byte>): (n: Option<nat>)
    requires |s| > 0
    ensures n.Some? ==> 1 <= n.value <= 4 && n.value <= |s|
  {
    var b := s[0];
    if b < 0x80 then Some(1)
    else if 0xC2 <= b <= 0xDF then
      if |s| >= 2 && Continuation(s[1]) then Some(2) else None
    else if 0xE0 <= b <= 0xEF then
      var lo := if b == 0xE0 then 0xA0 else 0x80;
      var hi := if b == 0xED then 0x9F else 0xBF;
      if |s| >= 3 && lo <= s[1] <= hi && Continuation(s[2]) then Some(3) else None
    else if 0xF0 <= b <= 0xF4 then
      var lo := if b == 0xF0 then 0x90 else 0x80;
      var hi := if b == 0xF4 then 0x8F else 0xBF;
      if |s| >= 4 && lo <= s[1] <= hi && Continuation(s[2]) && Continuation(s[3]) then Some(4) else None
    else None
  }

  predicate ValidUtf8(s: seq<byte>)
    decreases |s|
  {
    |s| == 0 || (CharLen(s).Some? && ValidUtf8(s[CharLen(s).value..]))
  }

  /// A character is recognised from its own bytes, whatever follows.
  lemma CharLenPrefix(s: seq<byte>, t: seq<byte>)
    requires |s| > 0 && CharLen(s).Some?
    ensures CharLen(s[..CharLen(s).value] + t) == CharLen(s)
  {
    var n := CharLen(s).value;
    var u := s[..n] + t;
    assert forall i :: 0 <= i < n ==> u[i] == s[i];
  }

  /// Only a one-byte character can be NUL: the bytes of longer characters
  /// are all at least 0x80.
  lemma CharNoNul(s: seq<byte>)
    requires |s| > 0 && CharLen(s).Some? && s[0] != 0
    ensures forall i :: 0 <= i < CharLen(s).value ==> s[i] != 0
  {
  }

  /// The part before a NUL does not reach past bytes that hold none.
  lemma {:induction false} BeforeNulSkip(s: seq<byte>, n: nat)
    requires n <= |s| && forall i :: 0 <= i < n ==> s[i] != 0
    ensures BeforeNul(s) == s[..n] + BeforeNul(s[n..])
    decreases n
  {
    if n > 0 {
      var b := BeforeNul(s[n..]);
      assert s[1..][n - 1..] == s[n..];
      BeforeNulSkip(s[1..], n - 1);
      assert BeforeNul(s) == [s[0]] + BeforeNul(s[1..]);
      assert [s[0]] + (s[1..][..n - 1] + b) == s[..n] + b;
    } else {
      assert s[..0] + BeforeNul(s) == BeforeNul(s) && s[0..] == s;
    }
  }

  /// Cutting well-formed UTF-8 at its first NUL leaves well-formed UTF-8,
  /// since a NUL is a character of its own.
  lemma {:induction false} BeforeNulValid(s: seq<byte>)
    requires ValidUtf8(s)
    ensures ValidUtf8(BeforeNul(s))
    decreases |s|
  {
    if |s| > 0 && s[0] != 0 {
      var n := CharLen(s).value;
      CharNoNul(s);
      BeforeNulSkip(s, n);
      BeforeNulValid(s[n..]);
      var u := s[..n] + BeforeNul(s[n..]);
      CharLenPrefix(s, BeforeNul(s[n..]));
      assert u[n..] == BeforeNul(s[n..]);
    }
  }

  /// Zero padding after a name does not change what precedes the NUL.
  lemma {:induction false} BeforeNulPadded(s: seq<byte>, k: nat)
    requires k > 0
    ensures BeforeNul(s + Zeros(k)) == BeforeNul(s)
    decreases |s|
  {
    if |s| == 0 {
      assert s + Zeros(k) == Zeros(k);
    } else if s[0] != 0 {
      BeforeNulPadded(s[1..], k);
      assert (s + Zeros(k))[1..] == s[1..] + Zeros(k);
    }
  }

  // ---------------------------------------------------------------------
  // Truncating on a character boundary

  /// The longest run of whole characters from the start of `s` that fits
  /// in `limit` bytes.
  function FitChars(s: seq<byte>, limit: nat): (r: seq<byte>)
    ensures r <= s && |r| <= limit
    decreases |s|
  {
    if |s| == 0 then []
    else
      match CharLen(s)
      case None => []
      case Some(n) =>
        if n > limit then []
        else
          var rest := FitChars(s[n..], limit - n);
          assert s[..n] + rest <= s by {
            assert s == s[..n] + s[n..];
          }
          s[..n] + rest
  }

  /// The cut keeps whole characters, so it is well-formed; it takes the
  /// whole string when it fits and at most three bytes fewer than the
  /// limit otherwise.
  lemma {:induction false} FitCharsValid(s: seq<byte>, limit: nat)
    requires ValidUtf8(s)
    ensures ValidUtf8(FitChars(s, limit))
    ensures |s| <= limit ==> FitChars(s, limit) == s
    ensures |FitChars(s, limit)| >= Min(|s|, limit - 3)
    decreases |s|
  {
    if |s| > 0 {
      var n := CharLen(s).value;
      if n <= limit {
        var rest := FitChars(s[n..], limit - n);
        var r := s[..n] + rest;
        assert FitChars(s, limit) == r;
        FitCharsValid(s[n..], limit - n);
        CharLenPrefix(s, rest);
        assert r[n..] == rest;
        assert ValidUtf8(r);
        if |s| <= limit {
          assert rest == s[n..];
          assert s[..n] + s[n..] == s;
        }
      } else {
        assert FitChars(s, limit) == [] && limit < 4 && |s| > limit;
      }
    } else {
      assert FitChars(s, limit) == [];
    }
  }

  /// The command name cut on a character boundary.
  function CorrectedNew(name: seq<byte>): (c: Comm)
    ensures |c.bytes| == COMM_LEN
  {
    var kept := FitChars(name, 15);
    Comm(kept + Zeros(COMM_LEN - |kept|))
  }

  /// A name cut on a character boundary always reads back as the longest
  /// whole-character prefix of at most fifteen bytes (up to an embedded
  /// NUL), never as the empty string by accident; a name that fits is
  /// kept as `Comm::new` keeps it.
  lemma CorrectedNewReadsBack(name: seq<byte>)
    requires ValidUtf8(name)
    ensures AsStr(CorrectedNew(name)) == BeforeNul(FitChars(name, 15))
    ensures FitChars(name, 15) <= name && |FitChars(name, 15)| >= Min(|name|, 12)
    ensures |name| <= 15 ==> CorrectedNew(name) == New(name)
  {
    var kept := FitChars(name, 15);
    FitCharsValid(name, 15);
    BeforeNulPadded(kept, COMM_LEN - |kept|);
    BeforeNulValid(kept);
  }

  /// ASCII bytes in front of a string do not change whether it is
  /// well-formed.
  lemma {:induction false} AsciiPrefixValid(a: seq<byte>, t: seq<byte>)
    requires forall i :: 0 <= i < |a| ==> a[i] < 0x80
    ensures ValidUtf8(a + t) == ValidUtf8(t)
    decreases |a|
  {
    if |a| > 0 {
      AsciiPrefixValid(a[1..], t);
      assert (a + t)[0] == a[0];
      assert CharLen(a + t) == Some(1);
      assert (a + t)[1..] == a[1..] + t;
    } else {
      assert a + t == t;
    }
  }

  /// `Comm::new` counts bytes, not characters: a name of fourteen ASCII
  /// characters followed by a two-byte `é` (`aaaaaaaaaaaaaaé`, say) is cut
  /// inside the `é`, and `as_str` then returns the empty string.
  lemma NewSplitsCharacter(a: seq<byte>)
    requires |a| == 14 && forall i :: 0 <= i < |a| ==> 0 < a[i] < 0x80
    ensures ValidUtf8(a + [0xC3, 0xA9])
    ensures AsStr(New(a + [0xC3, 0xA9])) == []
  {
    var e: seq<byte> := [0xC3, 0xA9];
    var lead: seq<byte> := [0xC3];
    AsciiPrefixValid(a, e);
    assert ValidUtf8(e) by {
      assert CharLen(e) == Some(2);
      assert e[2..] == [];
    }
    var cut := a + lead;
    assert (a + e)[..15] == cut;
    assert New(a + e).bytes == cut + Zeros(1);
    assert forall i :: 0 <= i < 15 ==> cut[i] != 0 by {
      assert forall i :: 0 <= i < 14 ==> cut[i] == a[i];
    }
    BeforeNulPadded(cut, 1);
    BeforeNulSkip(cut, 15);
    assert cut[15..] == [] && cut[..15] == cut;
    assert BeforeNul(New(a + e).bytes) == cut;
    AsciiPrefixValid(a, lead);
    assert !ValidUtf8(lead);
    assert !ValidUtf8(cut);
  }

  /// The same name cut on a character boundary reads back as its fourteen
  /// ASCII characters.
  lemma CorrectedKeepsWholeCharacters(a: seq<byte>)
    requires |a| == 14 && forall i :: 0 <= i < |a| ==> 0 < a[i] < 0x80
    ensures AsStr(CorrectedNew(a + [0xC3, 0xA9])) == a
  {
    var e: seq<byte> := [0xC3, 0xA9];
    assert ValidUtf8(e) by {
      assert CharLen(e) == Some(2);
      assert e[2..] == [];
    }
    AsciiPrefixValid(a, e);
    FitAscii(a, e, 15);
    assert FitChars(e, 1) == [];
    assert FitChars(a + e, 15) == a;
    assert CorrectedNew(a + e).bytes == a + Zeros(2);
    BeforeNulPadded(a, 2);
    BeforeNulSkip(a, 14);
    assert a[14..] == [] && a[..14] == a;
    AsciiPrefixValid(a, []);
    assert a + [] == a;
  }

  /// An ASCII byte that fits is kept as one character.
  lemma FitOneAscii(u: seq<byte>, limit: nat)
    requires |u| > 0 && u[0] < 0x80 && limit >= 1
    ensures FitChars(u, limit) == [u[0]] + FitChars(u[1..], limit - 1)
  {
    assert CharLen(u) == Some(1);
    assert u[..1] == [u[0]];
  }

  /// Over a run of ASCII bytes the boundary cut takes one byte at a time.
  lemma {:induction false} FitAscii(a: seq<byte>, t: seq<byte>, limit: nat)
    requires forall i :: 0 <= i < |a| ==> a[i] < 0x80
    requires |a| <= limit
    ensures FitChars(a + t, limit) == a + FitChars(t, limit - |a|)
    decreases |a|
  {
    if |a| > 0 {
      var u, v := a + t, a[1..] + t;
      assert u[0] == a[0] && u[1..] == v;
      FitAscii(a[1..], t, limit - 1);
      assert limit - 1 - |a[1..]| == limit - |a|;
      calc {
        FitChars(u, limit);
        { FitOneAscii(u, limit); }
        [a[0]] + FitChars(v, limit - 1);
        [a[0]] + (a[1..] + FitChars(t, limit - |a|));
        { ConsConcat(a, FitChars(t, limit - |a|)); }
        a + FitChars(t, limit - |a|);
      }
    } else {
      assert a == [];
      assert a + t == t && a + FitChars(t, limit) == FitChars(t, limit);
    }
  }

  lemma ConsConcat(a: seq<byte>, f: seq<byte>)
    requires |a| > 0
    ensures [a[0]] + (a[1..] + f) == a + f
  {
  }

  // ---------------------------------------------------------------------
  // Scheduling weight

  const SCHED_WEIGHT_BASE: int := 1024

  /// `weight`: the priority plus the base, clamped to at least 1.
  function Weight(priority: int): (w: nat)
    ensures w >= 1
    ensures priority + SCHED_WEIGHT_BASE >= 1 ==> w == priority + SCHED_WEIGHT_BASE
  {
    var sum := priority + SCHED_WEIGHT_BASE;
    if sum <= 0 then 1 else sum
  }

  /// For an 8-bit priority the clamp never applies: the weight is the
  /// priority plus 1024, between 896 and 1151, and a higher priority
  /// weighs more.
  lemma WeightIsShiftedPriority(p: int, q: int)
    requires -128 <= p < 128 && -128 <= q < 128
    ensures Weight(p) == p + SCHED_WEIGHT_BASE && 896 <= Weight(p) <= 1151
    ensures p < q ==> Weight(p) < Weight(q)
  {
  }
}
