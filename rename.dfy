/// `renameat` / `renameat2`: the flag checks, the splitting of both paths,
/// the resolution of both parent directories, and the rules deciding
/// whether an existing target may be replaced, ending in a call to the
/// VFS's `rename` or `exchange`.
///
/// The VFS is a map from inode numbers to inodes; the path library and
/// path resolution are code this model does not see, so a path arrives
/// already split and resolution is a function handed in.
module Rename {
  import opened Common

  const AT_RENAME_NOREPLACE: bv32 := 0x0001
  const AT_RENAME_EXCHANGE: bv32 := 0x0002
  const AT_RENAME_WHITEOUT: bv32 := 0x0004

  /// An inode: a directory with its entries, or anything else.
  datatype Inode = Dir(entries: map<string, nat>) | NonDir

  type Fs = map<nat, Inode>

  /// A path as the path library splits it: the directory part, when there
  /// is one, and the final name, when there is one.
  datatype Path = Path(parent: Option<string>, fileName: Option<string>)

  /// What a successful `renameat2` asks the VFS to do.
  datatype VfsCall =
    | Exchange(oldParent: nat, oldName: string, newParent: nat, newName: string)
    | MoveTo(oldParent: nat, oldName: string, newParent: nat, newName: string, noReplace: bool)

  predicate IsDir(fs: Fs, ino: nat) {
    ino in fs && fs[ino].Dir?
  }

  /// `lookup` of `name` in the directory `dir`.
  function Lookup(fs: Fs, dir: nat, name: string): (r: Result<nat>)
    ensures r.Ok? ==> IsDir(fs, dir) && name in fs[dir].entries && r.value == fs[dir].entries[name]
    ensures r.Ok? ==> r.value in fs
    ensures r.Err? ==> r.error == NotFound
  {
    if IsDir(fs, dir) && name in fs[dir].entries && fs[dir].entries[name] in fs then Ok(fs[dir].entries[name])
    else Err(NotFound)
  }

  /// `dir_is_empty`.
  predicate IsEmptyDir(fs: Fs, ino: nat) {
    IsDir(fs, ino) && |fs[ino].entries| == 0
  }

  /// The directory a path's name lives in: the start node for a bare name,
  /// otherwise the resolution of the directory part from the start node.
  function ParentOf(path: Path, start: nat, resolve: (string, nat) -> Result<nat>): Result<nat> {
    match path.parent
    case None => Ok(start)
    case Some(p) => resolve(p, start)
  }

  /// The flag checks, which come before anything is read: whiteout is not
  /// implemented, and no-replace cannot go with exchange.
  function CheckFlags(flags: bv32): (r: Result<(bool, bool)>)
    ensures r.Err? <==>
      flags & AT_RENAME_WHITEOUT != 0 || (flags & AT_RENAME_NOREPLACE != 0 && flags & AT_RENAME_EXCHANGE != 0)
    ensures r.Err? ==> r.error == InvalidValue
    ensures r.Ok? ==> r.value == (flags & AT_RENAME_NOREPLACE != 0, flags & AT_RENAME_EXCHANGE != 0)
  {
    var noReplace := flags & AT_RENAME_NOREPLACE != 0;
    var exchange := flags & AT_RENAME_EXCHANGE != 0;
    var whiteout := flags & AT_RENAME_WHITEOUT != 0;
    if whiteout then Err(InvalidValue)
    else if (noReplace || whiteout) && exchange then Err(InvalidValue)
    else Ok((noReplace, exchange))
  }

  /// What an existing target `newIno` allows for the source `oldIno`: never
  /// anything with no-replace; a directory target only when it is empty
  /// and the source is a directory too; a non-directory target only for a
  /// non-directory source.
  function TargetCheck(fs: Fs, oldIno: nat, newIno: nat, noReplace: bool): (r: Option<Error>)
    ensures r.None? <==>
      !noReplace && IsDir(fs, oldIno) == IsDir(fs, newIno) && (IsDir(fs, newIno) ==> IsEmptyDir(fs, newIno))
    ensures noReplace ==> r == Some(AlreadyExists)
    ensures !noReplace && IsDir(fs, newIno) && !IsEmptyDir(fs, newIno) ==> r == Some(AlreadyExists)
    ensures !noReplace && IsEmptyDir(fs, newIno) && !IsDir(fs, oldIno) ==> r == Some(IsADirectory)
    ensures !noReplace && !IsDir(fs, newIno) && IsDir(fs, oldIno) ==> r == Some(NotADirectory)
  {
    if noReplace then Some(AlreadyExists)
    else if IsDir(fs, newIno) then
      if !IsEmptyDir(fs, newIno) then Some(AlreadyExists)
      else if !IsDir(fs, oldIno) then Some(IsADirectory)
      else None
    else if IsDir(fs, oldIno) && !IsDir(fs, newIno) then Some(NotADirectory)
    else None
  }

  /// The last steps of `sys_renameat2`, once both parents are resolved:
  /// both must be directories, the old name must exist, and an existing
  /// target must pass the replacement rules.
  function Decide(fs: Fs, oldParent: nat, newParent: nat, oldName: string, newName: string,
                  noReplace: bool, exchange: bool): (r: Result<VfsCall>)
    ensures !IsDir(fs, oldParent) || !IsDir(fs, newParent) ==> r == Err(NotADirectory)
    ensures IsDir(fs, oldParent) && IsDir(fs, newParent) && Lookup(fs, oldParent, oldName).Err? ==> r == Err(NotFound)
    ensures r.Ok? ==>
      && IsDir(fs, oldParent) && IsDir(fs, newParent) && oldName in fs[oldParent].entries
      && r.value == (if exchange then Exchange(oldParent, oldName, newParent, newName)
                     else MoveTo(oldParent, oldName, newParent, newName, noReplace))
      && (newName in fs[newParent].entries && fs[newParent].entries[newName] in fs ==>
            var oldIno := fs[oldParent].entries[oldName];
            var newIno := fs[newParent].entries[newName];
            !noReplace && IsDir(fs, oldIno) == IsDir(fs, newIno)
            && (IsDir(fs, newIno) ==> IsEmptyDir(fs, newIno)))
  {
    if !IsDir(fs, oldParent) || !IsDir(fs, newParent) then Err(NotADirectory)
    else match Lookup(fs, oldParent, oldName)
      case Err(e) => Err(e)
      case Ok(oldIno) =>
        var target := Lookup(fs, newParent, newName);
        var refused := if target.Ok? then TargetCheck(fs, oldIno, target.value, noReplace) else None;
        if refused.Some? then Err(refused.value)
        else if exchange then Ok(Exchange(oldParent, oldName, newParent, newName))
        else Ok(MoveTo(oldParent, oldName, newParent, newName, noReplace))
  }

  /// `sys_renameat2`. `oldPath` / `newPath` are the results of copying the
  /// paths from user memory, `oldStart` / `newStart` those of finding each
  /// path's start node; `resolve` resolves a directory part from a start
  /// node. Each step's error is returned as soon as it happens.
  function RenameAt2(fs: Fs, oldPath: Result<Path>, newPath: Result<Path>, oldStart: Result<nat>,
                     newStart: Result<nat>, resolve: (string, nat) -> Result<nat>, flags: bv32)
    : (r: Result<VfsCall>)
    ensures CheckFlags(flags).Err? ==> r == Err(InvalidValue)
    ensures CheckFlags(flags).Ok? && oldPath.Err? ==> r == Err(oldPath.error)
    ensures CheckFlags(flags).Ok? && oldPath.Ok? && newPath.Err? ==> r == Err(newPath.error)
    ensures (CheckFlags(flags).Ok? && oldPath.Ok? && newPath.Ok?
             && (oldPath.value.fileName.None? || newPath.value.fileName.None?)) ==> r == Err(InvalidInput)
    ensures CheckFlags(flags).Ok? && oldPath.Ok? && newPath.Ok?
            && oldPath.value.fileName.Some? && newPath.value.fileName.Some? ==>
      && (oldStart.Err? ==> r == Err(oldStart.error))
      && (oldStart.Ok? && newStart.Err? ==> r == Err(newStart.error))
      && (oldStart.Ok? && newStart.Ok? ==>
            var oldParent := ParentOf(oldPath.value, oldStart.value, resolve);
            var newParent := ParentOf(newPath.value, newStart.value, resolve);
            && (oldParent.Err? ==> r == Err(oldParent.error))
            && (oldParent.Ok? && newParent.Err? ==> r == Err(newParent.error))
            && ((oldParent.Ok? && newParent.Ok? && (!IsDir(fs, oldParent.value) || !IsDir(fs, newParent.value)))
                ==> r == Err(NotADirectory))
            && ((oldParent.Ok? && newParent.Ok? && IsDir(fs, oldParent.value) && IsDir(fs, newParent.value)
                 && Lookup(fs, oldParent.value, oldPath.value.fileName.value).Err?)
                ==> r == Err(NotFound)))
    ensures r.Ok? ==>
      var (noReplace, exchange) := CheckFlags(flags).value;
      && oldPath.Ok? && newPath.Ok? && oldPath.value.fileName.Some? && newPath.value.fileName.Some?
      && oldStart.Ok? && newStart.Ok?
      && var oldParent := ParentOf(oldPath.value, oldStart.value, resolve);
      && var newParent := ParentOf(newPath.value, newStart.value, resolve);
      && oldParent.Ok? && newParent.Ok? && IsDir(fs, oldParent.value) && IsDir(fs, newParent.value)
      && var oldName := oldPath.value.fileName.value;
      && var newName := newPath.value.fileName.value;
      && oldName in fs[oldParent.value].entries
      && r.value == (if exchange then Exchange(oldParent.value, oldName, newParent.value, newName)
                     else MoveTo(oldParent.value, oldName, newParent.value, newName, noReplace))
      && (newName in fs[newParent.value].entries && fs[newParent.value].entries[newName] in fs ==>
            var oldIno := fs[oldParent.value].entries[oldName];
            var newIno := fs[newParent.value].entries[newName];
            !noReplace && IsDir(fs, oldIno) == IsDir(fs, newIno)
            && (IsDir(fs, newIno) ==> IsEmptyDir(fs, newIno)))
  {
    match CheckFlags(flags)
    case Err(e) => Err(e)
    case Ok((noReplace, exchange)) =>
      match (oldPath, newPath)
      case (Err(e), _) => Err(e)
      case (_, Err(e)) => Err(e)
      case (Ok(op), Ok(np)) =>
        if op.fileName.None? || np.fileName.None? then Err(InvalidInput)
        else match (oldStart, newStart)
          case (Err(e), _) => Err(e)
          case (_, Err(e)) => Err(e)
          case (Ok(os), Ok(ns)) =>
            match (ParentOf(op, os, resolve), ParentOf(np, ns, resolve))
            case (Err(e), _) => Err(e)
            case (_, Err(e)) => Err(e)
            case (Ok(oldParent), Ok(newParent)) =>
              Decide(fs, oldParent, newParent, op.fileName.value, np.fileName.value, noReplace, exchange)
  }

  /// `sys_renameat`: `renameat2` with no flags.
  function RenameAt(fs: Fs, oldPath: Result<Path>, newPath: Result<Path>, oldStart: Result<nat>,
                    newStart: Result<nat>, resolve: (string, nat) -> Result<nat>): (r: Result<VfsCall>)
    ensures r.Ok? ==> r.value.MoveTo? && !r.value.noReplace
  {
    RenameAt2(fs, oldPath, newPath, oldStart, newStart, resolve, 0)
  }

  /// Once both names are found in two directories, the outcome is decided
  /// by the target alone: no target, or one the rules accept, gives the
  /// VFS call; otherwise the rules' error.
  lemma DecidedByTarget(fs: Fs, op: Path, np: Path, os: nat, ns: nat,
                        resolve: (string, nat) -> Result<nat>, flags: bv32)
    requires CheckFlags(flags).Ok? && op.fileName.Some? && np.fileName.Some?
    requires ParentOf(op, os, resolve).Ok? && ParentOf(np, ns, resolve).Ok?
    requires IsDir(fs, ParentOf(op, os, resolve).value) && IsDir(fs, ParentOf(np, ns, resolve).value)
    requires Lookup(fs, ParentOf(op, os, resolve).value, op.fileName.value).Ok?
    ensures
      var target := Lookup(fs, ParentOf(np, ns, resolve).value, np.fileName.value);
      var oldIno := Lookup(fs, ParentOf(op, os, resolve).value, op.fileName.value).value;
      var r := RenameAt2(fs, Ok(op), Ok(np), Ok(os), Ok(ns), resolve, flags);
      && (target.Err? ==> r.Ok?)
      && (target.Ok? ==> (r.Ok? <==> TargetCheck(fs, oldIno, target.value, CheckFlags(flags).value.0).None?))
      && (target.Ok? && r.Err? ==> Some(r.error) == TargetCheck(fs, oldIno, target.value, CheckFlags(flags).value.0))
  {
  }

  /// A parent that is not a directory is reported before either name is
  /// looked up.
  lemma ParentNotDirectory(fs: Fs, op: Path, np: Path, os: nat, ns: nat,
                           resolve: (string, nat) -> Result<nat>, flags: bv32)
    requires CheckFlags(flags).Ok? && op.fileName.Some? && np.fileName.Some?
    requires ParentOf(op, os, resolve).Ok? && ParentOf(np, ns, resolve).Ok?
    requires !IsDir(fs, ParentOf(op, os, resolve).value) || !IsDir(fs, ParentOf(np, ns, resolve).value)
    ensures RenameAt2(fs, Ok(op), Ok(np), Ok(os), Ok(ns), resolve, flags) == Err(NotADirectory)
  {
  }

  /// Flag bits other than no-replace, exchange and whiteout change nothing.
  lemma UnknownFlagsIgnored(fs: Fs, oldPath: Result<Path>, newPath: Result<Path>, oldStart: Result<nat>,
                            newStart: Result<nat>, resolve: (string, nat) -> Result<nat>, flags: bv32)
    ensures RenameAt2(fs, oldPath, newPath, oldStart, newStart, resolve, flags)
         == RenameAt2(fs, oldPath, newPath, oldStart, newStart, resolve, flags & 7)
  {
    assert CheckFlags(flags) == CheckFlags(flags & 7);
  }
}
