/// The QEMU launcher: derives the flat binary path from the ELF path, decides
/// the init arguments, builds the ordered emulator option table and flattens it
/// into the emulator's argv. Argument parsing and process spawning are left to
/// the caller; the exit statuses of the two tools are parameters.
module QemuRunner {
  import opened Common

  /// The launcher's command-line arguments after parsing.
  datatype RunParams = RunParams(
    elf: string,
    init: string,
    rootfs: string,
    cpu: string,
    smp: string,      // str(args.smp): "4" by default, otherwise the text given
    memory: string,
    debug: bool)

  function DefaultParams(elf: string): (p: RunParams)
    ensures p.elf == elf && !p.debug
  {
    RunParams(elf, "/bin/sh", "moss.img", "cortex-a72", "4", "2G", false)
  }

  /// One entry of the ordered option dictionary: a key and an optional value.
  datatype OptionEntry = OptionEntry(key: string, value: Option<string>)

  type OptionTable = seq<OptionEntry>

  const ElfSuffix: string := ".elf"
  const BinSuffix: string := ".bin"
  const Emulator: string := "qemu-system-aarch64"
  const Objcopy: string := "aarch64-none-elf-objcopy"
  const FixedAppend: string :=
    " --rootfs=ext4fs --automount=/dev,devfs --automount=/tmp,tmpfs --automount=/proc,procfs --automount=/sys,sysfs"

  // ---------------------------------------------------------------------------
  // Binary path: `elf.replace(".elf", "") + ".bin"`

  predicate OccursAt(s: string, pat: string, i: nat)
  {
    i + |pat| <= |s| && s[i..i + |pat|] == pat
  }

  /// Python's `str.replace(pat, "")`: scans left to right and deletes every
  /// non-overlapping occurrence of `pat`.
  function RemoveAll(s: string, pat: string): string
    requires |pat| > 0
    decreases |s|
  {
    if |s| == 0 then s
    else if OccursAt(s, pat, 0) then RemoveAll(s[|pat|..], pat)
    else [s[0]] + RemoveAll(s[1..], pat)
  }

  function BinPath(elf: string): (bin: string)
    ensures |bin| >= |BinSuffix| && bin[|bin| - |BinSuffix|..] == BinSuffix
  {
    RemoveAll(elf, ElfSuffix) + BinSuffix
  }

  /// Removing a pattern that does not occur leaves the string unchanged.
  lemma {:induction false} RemoveAllAbsent(s: string, pat: string)
    requires |pat| > 0
    requires forall i: nat :: !OccursAt(s, pat, i)
    ensures RemoveAll(s, pat) == s
    decreases |s|
  {
    if |s| > 0 {
      assert !OccursAt(s, pat, 0);
      ShiftNoOccurrence(s, pat, 1);
      RemoveAllAbsent(s[1..], pat);
    }
  }

  /// Dropping a prefix of a string without occurrences leaves none.
  lemma ShiftNoOccurrence(s: string, pat: string, d: nat)
    requires d <= |s|
    requires forall i: nat :: i >= d ==> !OccursAt(s, pat, i)
    ensures forall i: nat :: !OccursAt(s[d..], pat, i)
  {
    forall i: nat ensures !OccursAt(s[d..], pat, i) {
      if i + |pat| <= |s[d..]| {
        assert s[d..][i..i + |pat|] == s[i + d..i + d + |pat|];
        assert !OccursAt(s, pat, i + d);
      }
    }
  }

  /// A pattern that occurs exactly once, at `k`, is cut out of the string.
  lemma {:induction false} RemoveAllOnce(s: string, pat: string, k: nat)
    requires |pat| > 0 && OccursAt(s, pat, k)
    requires forall i: nat :: i != k ==> !OccursAt(s, pat, i)
    ensures RemoveAll(s, pat) == s[..k] + s[k + |pat|..]
    decreases |s|
  {
    if k == 0 {
      ShiftNoOccurrence(s, pat, |pat|);
      RemoveAllAbsent(s[|pat|..], pat);
    } else {
      assert !OccursAt(s, pat, 0);
      assert s[1..][k - 1..k - 1 + |pat|] == s[k..k + |pat|];
      forall i: nat | i != k - 1 ensures !OccursAt(s[1..], pat, i) {
        if i + |pat| <= |s[1..]| {
          assert s[1..][i..i + |pat|] == s[i + 1..i + 1 + |pat|];
          assert !OccursAt(s, pat, i + 1);
        }
      }
      RemoveAllOnce(s[1..], pat, k - 1);
      assert [s[0]] + s[1..][..k - 1] == s[..k];
    }
  }

  /// A path without ".elf" simply gets ".bin" appended.
  lemma BinPathNoElf(elf: string)
    requires forall i: nat :: !OccursAt(elf, ElfSuffix, i)
    ensures BinPath(elf) == elf + BinSuffix
  {
    RemoveAllAbsent(elf, ElfSuffix);
  }

  /// A path holding ".elf" once loses it and gets ".bin" appended.
  lemma BinPathOneElf(elf: string, k: nat)
    requires OccursAt(elf, ElfSuffix, k)
    requires forall i: nat :: i != k ==> !OccursAt(elf, ElfSuffix, i)
    ensures BinPath(elf) == elf[..k] + elf[k + 4..] + BinSuffix
  {
    RemoveAllOnce(elf, ElfSuffix, k);
  }

  /// Every occurrence is deleted, not only a suffix: "a.elf.elf" becomes "a.bin".
  lemma BinPathEveryOccurrence()
    ensures BinPath("a.elf.elf") == "a.bin"
  {
    var s := "a.elf.elf";
    assert !OccursAt(s, ElfSuffix, 0) by { assert s[0..4] == "a.el"; }
    assert OccursAt(s[1..], ElfSuffix, 0) by { assert s[1..][0..4] == ".elf"; }
    assert OccursAt(s[5..], ElfSuffix, 0) by { assert s[5..][0..4] == ".elf"; }
    assert s[1..][4..] == s[5..];
    assert RemoveAll(s[5..], ElfSuffix) == RemoveAll(s[5..][4..], ElfSuffix);
    assert s[5..][4..] == "";
  }

  /// Characters that cannot start the pattern pass through unchanged.
  lemma {:induction false} RemoveAllPlainPrefix(a: string, b: string)
    requires '.' !in a
    ensures RemoveAll(a + b, ElfSuffix) == a + RemoveAll(b, ElfSuffix)
    decreases |a|
  {
    if |a| == 0 {
      assert a + b == b;
    } else {
      var s := a + b;
      assert s[0] == a[0] && a[0] in a;
      assert !OccursAt(s, ElfSuffix, 0) by {
        if 4 <= |s| { assert s[0..4][0] == s[0]; }
      }
      assert s[1..] == a[1..] + b;
      assert '.' !in a[1..] by { assert forall c :: c in a[1..] ==> c in a; }
      RemoveAllPlainPrefix(a[1..], b);
      assert [a[0]] + (a[1..] + RemoveAll(b, ElfSuffix)) == a + RemoveAll(b, ElfSuffix);
    }
  }

  lemma BinPathKernel()
    ensures BinPath("kernel.elf") == "kernel.bin"
  {
    var a, b := "kernel", ".elf";
    assert a + b == "kernel.elf";
    RemoveAllPlainPrefix(a, b);
    assert OccursAt(b, ElfSuffix, 0);
    assert b[4..] == "";
  }

  // ---------------------------------------------------------------------------
  // Init arguments

  /// Index of the last "/" in `s`, or -1 when there is none.
  function LastSlash(s: string): (k: int)
    ensures -1 <= k < |s|
    ensures k >= 0 ==> s[k] == '/'
    ensures forall j :: k < j < |s| ==> s[j] != '/'
    decreases |s|
  {
    if |s| == 0 then -1
    else if s[|s| - 1] == '/' then |s| - 1
    else LastSlash(s[..|s| - 1])
  }

  /// `s.split("/")[-1]`: the text after the last "/" (all of `s` if none).
  function LastSegment(s: string): string
  {
    s[LastSlash(s) + 1..]
  }

  predicate IsShell(init: string)
  {
    LastSegment(init) == "bash" || LastSegment(init) == "sh"
  }

  /// The init fragment of the kernel command line. "--init-arg=-i" is added
  /// exactly when the last path segment names a shell.
  function AppendArgs(init: string): (frag: string)
    ensures IsShell(init) <==> frag == "--init=" + init + " --init-arg=-i"
    ensures !IsShell(init) <==> frag == "--init=" + init
  {
    if IsShell(init) then "--init=" + init + " --init-arg=-i"
    else
      assert |"--init=" + init| != |"--init=" + init + " --init-arg=-i"|;
      "--init=" + init
  }

  function KernelCommandLine(init: string): string
  {
    AppendArgs(init) + FixedAppend
  }

  /// The default init "/bin/sh" is a shell.
  lemma BinShIsShell()
    ensures IsShell("/bin/sh")
  {
    assert LastSlash("/bin/sh") == 4 by {
      assert "/bin/sh"[..6] == "/bin/s";
      assert "/bin/s"[..5] == "/bin/";
    }
    assert "/bin/sh"[5..] == "sh";
  }

  /// The test looks at the last segment only: a directory named "bash" does
  /// not count, a bare "sh" does.
  lemma ShellNames()
    ensures IsShell("/usr/bin/bash") && IsShell("sh")
    ensures !IsShell("/usr/bin/myinit") && !IsShell("/bin/sh/")
  {
    assert LastSlash("/usr/bin/bash") == 8 by {
      assert "/usr/bin/bash"[..12] == "/usr/bin/bas";
      assert "/usr/bin/bas"[..11] == "/usr/bin/ba";
      assert "/usr/bin/ba"[..10] == "/usr/bin/b";
      assert "/usr/bin/b"[..9] == "/usr/bin/";
    }
    assert "/usr/bin/bash"[9..] == "bash";
    assert LastSlash("sh") == -1 by {
      assert "sh"[..1] == "s";
      assert "s"[..0] == "";
    }
    var m := LastSegment("/usr/bin/myinit");
    assert |m| > 0 ==> m[|m| - 1] == 't';
    assert LastSegment("/bin/sh/") == "";
  }

  // ---------------------------------------------------------------------------
  // The ordered option dictionary

  function Keys(t: OptionTable): (ks: seq<string>)
  {
    seq(|t|, i requires 0 <= i < |t| => t[i].key)
  }

  predicate UniqueKeys(t: OptionTable)
  {
    forall i, j :: 0 <= i < j < |t| ==> t[i].key != t[j].key
  }

  /// `d[key] = value` on a Python dict: an existing key keeps its position and
  /// gets the new value; a new key goes at the end. Keys stay unique.
  function Insert(t: OptionTable, key: string, value: Option<string>): (t': OptionTable)
    requires UniqueKeys(t)
    ensures UniqueKeys(t')
    ensures |t'| == if key in Keys(t) then |t| else |t| + 1
    ensures forall i :: 0 <= i < |t| ==> t'[i] == if t[i].key == key then OptionEntry(key, value) else t[i]
    ensures key !in Keys(t) ==> t'[|t|] == OptionEntry(key, value)
  {
    if |t| == 0 then [OptionEntry(key, value)]
    else if t[0].key == key then
      assert Keys(t)[0] == key;
      assert key !in Keys(t[1..]);
      [OptionEntry(key, value)] + t[1..]
    else
      assert Keys(t) == [t[0].key] + Keys(t[1..]);
      var rest := Insert(t[1..], key, value);
      [t[0]] + rest
  }

  function BaseTable(p: RunParams): OptionTable
  {
    [ OptionEntry("-M", Some("virt,gic-version=3")),
      OptionEntry("-initrd", Some(p.rootfs)),
      OptionEntry("-cpu", Some(p.cpu)),
      OptionEntry("-m", Some(p.memory)),
      OptionEntry("-smp", Some(p.smp)),
      OptionEntry("-nographic", None),
      OptionEntry("-s", None),
      OptionEntry("-kernel", Some(BinPath(p.elf))),
      OptionEntry("-append", Some(KernelCommandLine(p.init))) ]
  }

  const BaseKeys: seq<string> :=
    ["-M", "-initrd", "-cpu", "-m", "-smp", "-nographic", "-s", "-kernel", "-append"]

  /// What tells the base keys apart: their length and second character.
  function Tag(k: string): int {
    if |k| < 2 then 0 else |k| * 256 + k[1] as int
  }

  /// The position of a base key in the table, recovered from its tag.
  function TagIndex(tag: int): int {
    if tag == 2 * 256 + 'M' as int then 0
    else if tag == 7 * 256 + 'i' as int then 1
    else if tag == 4 * 256 + 'c' as int then 2
    else if tag == 2 * 256 + 'm' as int then 3
    else if tag == 4 * 256 + 's' as int then 4
    else if tag == 10 * 256 + 'n' as int then 5
    else if tag == 2 * 256 + 's' as int then 6
    else if tag == 7 * 256 + 'k' as int then 7
    else if tag == 7 * 256 + 'a' as int then 8
    else -1
  }

  lemma KeyTag(i: nat)
    requires i < 9
    ensures TagIndex(Tag(BaseKeys[i])) == i
  {
    if i == 0 { assert BaseKeys[0] == "-M"; }
    else if i == 1 { assert BaseKeys[1] == "-initrd"; }
    else if i == 2 { assert BaseKeys[2] == "-cpu"; }
    else if i == 3 { assert BaseKeys[3] == "-m"; }
    else if i == 4 { assert BaseKeys[4] == "-smp"; }
    else if i == 5 { assert BaseKeys[5] == "-nographic"; }
    else if i == 6 { assert BaseKeys[6] == "-s"; }
    else if i == 7 { assert BaseKeys[7] == "-kernel"; }
    else { assert BaseKeys[8] == "-append"; }
  }

  /// The base table has the base keys, in order, each once.
  lemma BaseTableKeys(p: RunParams)
    ensures Keys(BaseTable(p)) == BaseKeys
    ensures UniqueKeys(BaseTable(p))
  {
    var t := BaseTable(p);
    assert Keys(t) == BaseKeys;
    forall i, j | 0 <= i < j < |t| ensures t[i].key != t[j].key {
      KeyTag(i);
      KeyTag(j);
      assert t[i].key == Keys(t)[i] && t[j].key == Keys(t)[j];
    }
  }

  /// The option dictionary: the base entries and, under --debug, "-S" inserted
  /// with no value.
  function Options(p: RunParams): OptionTable
  {
    BaseTableKeys(p);
    var t := BaseTable(p);
    if p.debug then Insert(t, "-S", None) else t
  }

  /// The keys come in the fixed order, "-S" last and only under --debug; the
  /// values are the parsed arguments and the derived paths.
  lemma OptionsShape(p: RunParams)
    ensures UniqueKeys(Options(p))
    ensures Keys(Options(p)) == if p.debug then BaseKeys + ["-S"] else BaseKeys
    ensures Options(p)[..9] == BaseTable(p)
    ensures p.debug ==> Options(p)[9] == OptionEntry("-S", None)
    ensures Options(p)[1].value == Some(p.rootfs) && Options(p)[2].value == Some(p.cpu)
    ensures Options(p)[3].value == Some(p.memory) && Options(p)[4].value == Some(p.smp)
    ensures Options(p)[7].value == Some(BinPath(p.elf))
    ensures Options(p)[8].value == Some(AppendArgs(p.init) + FixedAppend)
  {
    var t := BaseTable(p);
    BaseTableKeys(p);
    if p.debug {
      assert "-S" !in Keys(t);
      var t' := Insert(t, "-S", None);
      assert Keys(t') == BaseKeys + ["-S"];
      assert t'[..9] == t;
    }
  }

  // ---------------------------------------------------------------------------
  // Flattening to argv

  function EntryTokens(e: OptionEntry): (ts: seq<string>)
    ensures 1 <= |ts| <= 2 && ts[0] == e.key
    ensures |ts| == 2 <==> e.value.Some?
    ensures e.value.Some? ==> ts[1] == e.value.value
  {
    match e.value
    case None => [e.key]
    case Some(v) => [e.key, v]
  }

  function Flatten(t: OptionTable): seq<string>
  {
    if |t| == 0 then [] else EntryTokens(t[0]) + Flatten(t[1..])
  }

  lemma {:induction false} FlattenAppend(t: OptionTable, e: OptionEntry)
    ensures Flatten(t + [e]) == Flatten(t) + EntryTokens(e)
    decreases |t|
  {
    if |t| == 0 {
      assert t + [e] == [e];
    } else {
      assert (t + [e])[1..] == t[1..] + [e];
      FlattenAppend(t[1..], e);
    }
  }

  /// One token per valueless entry, two per entry with a value.
  function TokenCount(t: OptionTable): nat
  {
    if |t| == 0 then 0 else (if t[0].value.Some? then 2 else 1) + TokenCount(t[1..])
  }

  lemma {:induction false} FlattenLength(t: OptionTable)
    ensures |Flatten(t)| == TokenCount(t)
    decreases |t|
  {
    if |t| > 0 { FlattenLength(t[1..]); }
  }

  /// Builds the argv as the loop in `qemu_runner.py` does: the program name,
  /// then per entry its key and, when present, its value.
  method QemuCommand(t: OptionTable) returns (argv: seq<string>)
    ensures argv == [Emulator] + Flatten(t)
  {
    argv := [Emulator];
    for i := 0 to |t|
      invariant argv == [Emulator] + Flatten(t[..i])
    {
      var e := t[i];
      argv := argv + [e.key];
      if e.value.Some? {
        argv := argv + [e.value.value];
      }
      assert argv == [Emulator] + Flatten(t[..i]) + EntryTokens(e);
      FlattenAppend(t[..i], e);
      assert t[..i] + [e] == t[..i + 1];
    }
    assert t[..|t|] == t;
  }

  // ---------------------------------------------------------------------------
  // The whole run

  function ObjcopyArgv(elf: string): (argv: seq<string>)
    ensures |argv| == 5 && argv[3] == elf && argv[4] == BinPath(elf)
  {
    [Objcopy, "-O", "binary", elf, BinPath(elf)]
  }

  datatype RunOutcome = Completed | Failed(status: int)

  /// The two child processes the launcher starts, in order, and how the run
  /// ends given their exit statuses (`check=True` aborts on a non-zero status).
  method Launch(p: RunParams, objcopyStatus: int, qemuStatus: int)
    returns (invoked: seq<seq<string>>, outcome: RunOutcome)
    ensures |invoked| >= 1 && invoked[0] == ObjcopyArgv(p.elf)
    ensures objcopyStatus != 0 ==> invoked == [ObjcopyArgv(p.elf)] && outcome == Failed(objcopyStatus)
    ensures objcopyStatus == 0 ==> invoked == [ObjcopyArgv(p.elf), [Emulator] + Flatten(Options(p))]
    ensures objcopyStatus == 0 ==> (outcome == Completed <==> qemuStatus == 0)
    ensures objcopyStatus == 0 && qemuStatus != 0 ==> outcome == Failed(qemuStatus)
  {
    invoked := [ObjcopyArgv(p.elf)];
    if objcopyStatus != 0 {
      return invoked, Failed(objcopyStatus);
    }
    var argv := QemuCommand(Options(p));
    invoked := invoked + [argv];
    outcome := if qemuStatus == 0 then Completed else Failed(qemuStatus);
  }

  /// The flattened base table: every key in order, each followed by its value
  /// unless it is one of the two valueless switches.
  lemma FlattenBase(p: RunParams)
    ensures Flatten(BaseTable(p)) ==
      [ "-M", "virt,gic-version=3", "-initrd", p.rootfs, "-cpu", p.cpu, "-m", p.memory,
        "-smp", p.smp, "-nographic", "-s", "-kernel", BinPath(p.elf),
        "-append", AppendArgs(p.init) + FixedAppend ]
  {
    var t := BaseTable(p);
    assert Flatten(t[9..]) == [];
    assert Flatten(t[8..]) == EntryTokens(t[8]) + Flatten(t[9..]);
    assert Flatten(t[7..]) == EntryTokens(t[7]) + Flatten(t[8..]);
    assert Flatten(t[6..]) == EntryTokens(t[6]) + Flatten(t[7..]);
    assert Flatten(t[5..]) == EntryTokens(t[5]) + Flatten(t[6..]);
    assert Flatten(t[4..]) == EntryTokens(t[4]) + Flatten(t[5..]);
    assert Flatten(t[3..]) == EntryTokens(t[3]) + Flatten(t[4..]);
    assert Flatten(t[2..]) == EntryTokens(t[2]) + Flatten(t[3..]);
    assert Flatten(t[1..]) == EntryTokens(t[1]) + Flatten(t[2..]);
  }

  /// With --debug the argv is the non-debug argv followed by the single token "-S".
  lemma DebugAddsTrailingS(p: RunParams)
    requires p.debug
    ensures Flatten(Options(p)) == Flatten(BaseTable(p)) + ["-S"]
  {
    OptionsShape(p);
    assert Options(p) == BaseTable(p) + [OptionEntry("-S", None)];
    FlattenAppend(BaseTable(p), OptionEntry("-S", None));
  }

  /// The default run of "kernel.elf" produces exactly the documented options
  /// (the argv is "qemu-system-aarch64" followed by these).
  lemma DefaultArgv()
    ensures Flatten(Options(DefaultParams("kernel.elf"))) ==
      [ "-M", "virt,gic-version=3", "-initrd", "moss.img", "-cpu", "cortex-a72", "-m", "2G",
        "-smp", "4", "-nographic", "-s", "-kernel", "kernel.bin",
        "-append", "--init=" + "/bin/sh" + " --init-arg=-i" + FixedAppend ]
  {
    var p := DefaultParams("kernel.elf");
    BinPathKernel();
    BinShIsShell();
    assert Options(p) == BaseTable(p);
    FlattenBase(p);
  }
}
