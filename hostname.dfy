/// The host name: its start-up value and `sethostname`'s checks, in the
/// order the kernel makes them, ending in a replacement of the stored name.
module Hostname {
  import opened Common
  import Process

  const HOST_NAME_MAX: nat := 64

  /// "moss-machine".
  const DEFAULT_HOSTNAME: seq<byte> := [0x6d, 0x6f, 0x73, 0x73, 0x2d, 0x6d, 0x61, 0x63, 0x68, 0x69, 0x6e, 0x65]

  /// `trim_end_matches('\0')`: the name without its trailing NULs.
  function TrimTrailingNuls(s: seq<byte>): (r: seq<byte>)
    ensures r <= s
    ensures forall i :: |r| <= i < |s| ==> s[i] == 0
    ensures |r| == 0 || r[|r| - 1] != 0
  {
    if |s| == 0 || s[|s| - 1] != 0 then s else TrimTrailingNuls(s[..|s| - 1])
  }

  /// What `sys_sethostname` does with its arguments: the name it stores, or
  /// its error. The capability is checked first, then the length, then the
  /// copy from user memory (`copied`, holding `nameLen` bytes when it
  /// succeeds), then the encoding.
  function SetOutcome(capable: bool, nameLen: nat, copied: Result<seq<byte>>): (r: Result<seq<byte>>)
    requires copied.Ok? ==> |copied.value| == nameLen
    ensures !capable ==> r == Err(NotPermitted)
    ensures capable && nameLen > HOST_NAME_MAX ==> r == Err(NameTooLong)
    ensures capable && nameLen <= HOST_NAME_MAX && copied.Err? ==> r == Err(copied.error)
    ensures (capable && nameLen <= HOST_NAME_MAX && copied.Ok? && !Process.ValidUtf8(copied.value))
              ==> r == Err(InvalidValue)
    ensures r.Ok? <==> capable && nameLen <= HOST_NAME_MAX && copied.Ok? && Process.ValidUtf8(copied.value)
    ensures r.Ok? ==> r.value == TrimTrailingNuls(copied.value) && |r.value| <= HOST_NAME_MAX
  {
    if !capable then Err(NotPermitted)
    else if nameLen > HOST_NAME_MAX then Err(NameTooLong)
    else match copied
      case Err(e) => Err(e)
      case Ok(bytes) =>
        if !Process.ValidUtf8(bytes) then Err(InvalidValue)
        else Ok(TrimTrailingNuls(bytes))
  }

  /// A well-formed name that ends in a NUL is still well formed without it,
  /// since the NUL is a character of its own.
  lemma {:induction false} DropFinalNul(s: seq<byte>)
    requires Process.ValidUtf8(s) && |s| > 0 && s[|s| - 1] == 0
    ensures Process.ValidUtf8(s[..|s| - 1])
    decreases |s|
  {
    var n := Process.CharLen(s).value;
    if n < |s| {
      var rest := s[n..];
      DropFinalNul(rest);
      var t := rest[..|rest| - 1];
      assert s[..|s| - 1] == s[..n] + t;
      Process.CharLenPrefix(s, t);
      assert (s[..n] + t)[n..] == t;
    } else {
      assert n == 1;
    }
  }

  /// Trimming NULs keeps a name well formed.
  lemma {:induction false} TrimValid(s: seq<byte>)
    requires Process.ValidUtf8(s)
    ensures Process.ValidUtf8(TrimTrailingNuls(s))
    decreases |s|
  {
    if |s| > 0 && s[|s| - 1] == 0 {
      DropFinalNul(s);
      TrimValid(s[..|s| - 1]);
    }
  }

  /// The stored host name.
  class HostnameCell {
    var name: seq<byte>

    /// What every stored name satisfies: well-formed UTF-8 of at most
    /// `HOST_NAME_MAX` bytes with no NUL inside, so `uname` can always
    /// turn it into a C string.
    ghost predicate Valid()
      reads this
    {
      Process.ValidUtf8(name) && |name| <= HOST_NAME_MAX && 0 !in name
    }

    /// `hostname()` on first use.
    constructor()
      ensures name == DEFAULT_HOSTNAME && Valid()
    {
      DefaultValid();
      name := DEFAULT_HOSTNAME;
    }

    /// `sys_sethostname`, with the name cut at its first NUL as
    /// `CorrectedOutcome` says: on success the name is replaced and the
    /// call returns 0; on an error nothing changes.
    method SetHostname(capable: bool, nameLen: nat, copied: Result<seq<byte>>) returns (r: Result<nat>)
      requires copied.Ok? ==> |copied.value| == nameLen
      requires Valid()
      modifies this
      ensures Valid()
      ensures r.Ok? <==> SetOutcome(capable, nameLen, copied).Ok?
      ensures r.Ok? ==> r.value == 0 && name == CorrectedOutcome(capable, nameLen, copied).value
      ensures r.Err? ==> r.error == SetOutcome(capable, nameLen, copied).error && name == old(name)
    {
      var outcome := CorrectedOutcome(capable, nameLen, copied);
      match outcome
      case Err(e) =>
        r := Err(e);
      case Ok(cut) =>
        name := cut;
        r := Ok(0);
    }
  }

  /// The start-up name is a possible stored name.
  lemma DefaultValid()
    ensures Process.ValidUtf8(DEFAULT_HOSTNAME) && |DEFAULT_HOSTNAME| <= HOST_NAME_MAX && 0 !in DEFAULT_HOSTNAME
  {
    assert forall i :: 0 <= i < |DEFAULT_HOSTNAME| ==> 0 < DEFAULT_HOSTNAME[i] < 0x80;
    AsciiValid(DEFAULT_HOSTNAME);
  }

  /// ASCII is well-formed UTF-8.
  lemma {:induction false} AsciiValid(s: seq<byte>)
    requires forall i :: 0 <= i < |s| ==> s[i] < 0x80
    ensures Process.ValidUtf8(s)
    decreases |s|
  {
    if |s| > 0 {
      AsciiValid(s[1..]);
    }
  }

  /// The name kept is the longest prefix not ending in NUL, so a name
  /// without trailing NULs is kept whole.
  lemma TrimKeepsUnpadded(s: seq<byte>)
    requires |s| == 0 || s[|s| - 1] != 0
    ensures TrimTrailingNuls(s) == s
  {
  }

  /// Only trailing NULs go: a NUL inside the name is kept, so a stored
  /// name can hold one.
  lemma InteriorNulKept()
    ensures SetOutcome(true, 3, Ok([0x61, 0, 0x62])) == Ok([0x61, 0, 0x62])
  {
    var s: seq<byte> := [0x61, 0, 0x62];
    assert Process.CharLen(s) == Some(1);
    assert s[1..] == [0, 0x62] && Process.CharLen(s[1..]) == Some(1);
    assert s[1..][1..] == [0x62] && Process.CharLen([0x62]) == Some(1);
    assert [0x62][1..] == [];
  }

  /// The name cut at its first NUL, which is what a reader of the C
  /// string sees.
  function CorrectedOutcome(capable: bool, nameLen: nat, copied: Result<seq<byte>>): (r: Result<seq<byte>>)
    requires copied.Ok? ==> |copied.value| == nameLen
    ensures r.Ok? <==> SetOutcome(capable, nameLen, copied).Ok?
    ensures r.Err? ==> r.error == SetOutcome(capable, nameLen, copied).error
    ensures r.Ok? ==> 0 !in r.value && Process.ValidUtf8(r.value) && |r.value| <= HOST_NAME_MAX
  {
    match SetOutcome(capable, nameLen, copied)
    case Err(e) => Err(e)
    case Ok(_) =>
      Process.BeforeNulValid(copied.value);
      Ok(Process.BeforeNul(copied.value))
  }

  /// Where the name has no NUL inside it, the correction changes nothing.
  lemma {:induction false} CorrectedAgrees(capable: bool, nameLen: nat, copied: Result<seq<byte>>)
    requires copied.Ok? && |copied.value| == nameLen && 0 !in TrimTrailingNuls(copied.value)
    ensures CorrectedOutcome(capable, nameLen, copied) == SetOutcome(capable, nameLen, copied)
  {
    if SetOutcome(capable, nameLen, copied).Ok? {
      var s := copied.value;
      var t := TrimTrailingNuls(s);
      Process.BeforeNulSkip(s, |t|);
      assert s[..|t|] == t;
      if |t| < |s| {
        assert s[|t|..][0] == 0;
        assert Process.BeforeNul(s[|t|..]) == [];
      } else {
        assert s[|t|..] == [];
      }
      assert Process.BeforeNul(s) == t;
    }
  }
}
