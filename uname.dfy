/// `uname`: five zeroed 65-byte fields, each filled with the front of a
/// NUL-terminated string, copied out to the caller.
module Uname {
  import opened Common
  import Process
  import Hostname

  const FIELD_LEN: nat := 65

  const SYSNAME: seq<byte> := Ascii("Moss")
  const RELEASE: seq<byte> := Ascii("5.7.1")
  const VERSION_SMP: seq<byte> := Ascii("#1 Moss SMP Tue Feb 20 12:34:56 UTC 2024")
  const VERSION_UP: seq<byte> := Ascii("#1 Moss Tue Feb 20 12:34:56 UTC 2024")

  /// `copy_str_to_c_char_arr`: as many leading bytes of `src` as `dest`
  /// holds go to the front of `dest`; the rest of `dest` is left alone, so
  /// a source too long for it ends up with no NUL.
  method CopyStrToCCharArr(dest: array<byte>, src: seq<byte>)
    modifies dest
    ensures dest[..Min(dest.Length, |src|)] == src[..Min(dest.Length, |src|)]
    ensures dest[Min(dest.Length, |src|)..] == old(dest[Min(dest.Length, |src|)..])
  {
    var n := Min(dest.Length, |src|);
    forall i | 0 <= i < n {
      dest[i] := src[i];
    }
  }

  /// What a zeroed field holds once `s` is copied into it.
  function Field(s: seq<byte>): (f: seq<byte>)
    ensures |f| == FIELD_LEN
    ensures f[..Min(FIELD_LEN, |s|)] == s[..Min(FIELD_LEN, |s|)]
    ensures forall i :: Min(FIELD_LEN, |s|) <= i < FIELD_LEN ==> f[i] == 0
  {
    var n := Min(FIELD_LEN, |s|);
    s[..n] + Process.Zeros(FIELD_LEN - n)
  }

  /// A string of at most 64 bytes with no NUL inside is read back whole
  /// from its field, terminator and all.
  lemma FieldReadsBack(s: seq<byte>)
    requires 0 !in s && |s| < FIELD_LEN
    ensures Process.BeforeNul(Field(s + [0])) == s
  {
    var f := Field(s + [0]);
    Process.BeforeNulSkip(f, |s|);
    assert f[..|s|] == s;
    assert f[|s|..][0] == 0;
  }

  /// A longer string fills the field with no NUL at all.
  lemma LongFieldUnterminated(s: seq<byte>)
    requires |s| >= FIELD_LEN && 0 !in s[..FIELD_LEN]
    ensures 0 !in Field(s)
  {
    assert Field(s) == s[..FIELD_LEN];
  }

  /// `OldUtsname`: five fixed-size character arrays.
  class Utsname {
    const sysname: array<byte>
    const nodename: array<byte>
    const release: array<byte>
    const version: array<byte>
    const machine: array<byte>

    /// Five separate arrays of the field length.
    predicate Valid()
    {
      && sysname.Length == FIELD_LEN && nodename.Length == FIELD_LEN && release.Length == FIELD_LEN
      && version.Length == FIELD_LEN && machine.Length == FIELD_LEN
      && sysname != nodename && sysname != release && sysname != version && sysname != machine
      && nodename != release && nodename != version && nodename != machine
      && release != version && release != machine
      && version != machine
    }

    /// `mem::zeroed`.
    constructor()
      ensures Valid()
      ensures fresh(sysname) && fresh(nodename) && fresh(release) && fresh(version) && fresh(machine)
      ensures sysname[..] == nodename[..] == release[..] == version[..] == machine[..] == Process.Zeros(FIELD_LEN)
    {
      sysname := new byte[FIELD_LEN](_ => 0);
      nodename := new byte[FIELD_LEN](_ => 0);
      release := new byte[FIELD_LEN](_ => 0);
      version := new byte[FIELD_LEN](_ => 0);
      machine := new byte[FIELD_LEN](_ => 0);
    }
  }

  /// Copying a string into a zeroed field gives `Field` of it.
  method Fill(dest: array<byte>, src: seq<byte>)
    requires dest.Length == FIELD_LEN && dest[..] == Process.Zeros(FIELD_LEN)
    modifies dest
    ensures dest[..] == Field(src)
  {
    CopyStrToCCharArr(dest, src);
    var n := Min(FIELD_LEN, |src|);
    assert dest[..] == dest[..n] + dest[n..];
  }

  /// `sys_uname` on a host name and architecture name holding no NUL (the
  /// conversions to C strings fail on one, and the kernel unwraps them),
  /// with `copyOut` the outcome of copying the record to the caller.
  method SysUname(hostname: seq<byte>, archName: seq<byte>, smp: bool, copyOut: Option<Error>)
    returns (r: Result<nat>, uts: Utsname)
    requires 0 !in hostname && 0 !in archName
    ensures fresh(uts) && uts.Valid()
    ensures uts.sysname[..] == Field(SYSNAME + [0])
    ensures uts.nodename[..] == Field(hostname + [0])
    ensures uts.release[..] == Field(RELEASE + [0])
    ensures uts.version[..] == Field((if smp then VERSION_SMP else VERSION_UP) + [0])
    ensures uts.machine[..] == Field(archName + [0])
    ensures r == if copyOut.Some? then Err(copyOut.value) else Ok(0)
  {
    uts := new Utsname();
    Fill(uts.sysname, SYSNAME + [0]);
    Fill(uts.nodename, hostname + [0]);
    Fill(uts.release, RELEASE + [0]);
    Fill(uts.version, (if smp then VERSION_SMP else VERSION_UP) + [0]);
    Fill(uts.machine, archName + [0]);
    r := if copyOut.Some? then Err(copyOut.value) else Ok(0);
  }

  /// The fixed fields read back as "Moss", "5.7.1" and the version string.
  lemma FixedFieldsReadBack(smp: bool)
    ensures Process.BeforeNul(Field(SYSNAME + [0])) == SYSNAME
    ensures Process.BeforeNul(Field(RELEASE + [0])) == RELEASE
    ensures Process.BeforeNul(Field((if smp then VERSION_SMP else VERSION_UP) + [0]))
         == (if smp then VERSION_SMP else VERSION_UP)
  {
    FieldReadsBack(SYSNAME);
    FieldReadsBack(RELEASE);
    FieldReadsBack(if smp then VERSION_SMP else VERSION_UP);
  }

  /// Every name the corrected `sethostname` stores can be reported, and
  /// the node name reads back as exactly that name.
  lemma CorrectedHostnameReadsBack(capable: bool, nameLen: nat, copied: Result<seq<byte>>)
    requires copied.Ok? ==> |copied.value| == nameLen
    requires Hostname.CorrectedOutcome(capable, nameLen, copied).Ok?
    ensures var h := Hostname.CorrectedOutcome(capable, nameLen, copied).value;
      0 !in h && Process.BeforeNul(Field(h + [0])) == h
  {
    FieldReadsBack(Hostname.CorrectedOutcome(capable, nameLen, copied).value);
  }
}
