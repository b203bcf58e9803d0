/// File metadata and the Unix permission check the VFS applies to it.
module FileAttrs {
  import opened Common

  /// `FilePermissions`: the twelve mode bits of a file, in a 16-bit word.
  type Mode = bv16

  const S_IRUSR: Mode := 0x100  // 0o400
  const S_IWUSR: Mode := 0x80   // 0o200
  const S_IXUSR: Mode := 0x40   // 0o100
  const S_IRGRP: Mode := 0x20   // 0o040
  const S_IWGRP: Mode := 0x10   // 0o020
  const S_IXGRP: Mode := 0x8    // 0o010
  const S_IROTH: Mode := 0x4    // 0o004
  const S_IWOTH: Mode := 0x2    // 0o002
  const S_IXOTH: Mode := 0x1    // 0o001
  const S_ISUID: Mode := 0x800  // 0o4000
  const S_ISGID: Mode := 0x400  // 0o2000
  const S_ISVTX: Mode := 0x200  // 0o1000

  /// Every named mode bit: what `from_bits_truncate` keeps.
  const ALL_MODE_BITS: Mode := 0xFFF

  /// `AccessMode`: the `access(2)`-style request, a 32-bit mask.
  type Access = bv32

  const X_OK: Access := 1
  const W_OK: Access := 2
  const R_OK: Access := 4

  /// The superuser.
  const ROOT_UID: nat := 0

  /// The part of `FileAttr` the permission check reads.
  datatype FileAttr = FileAttr(mode: Mode, uid: nat, gid: nat)

  /// `from_bits_truncate`.
  function Truncate(bits: Mode): Mode
  {
    bits & ALL_MODE_BITS
  }

  /// The permission bits `check_access` judges a caller by, moved to the
  /// owner position: the owner's own, the group's shifted up by three, or
  /// the others' shifted up by six (on 16 bits, higher bits drop off).
  function SelectedBits(attr: FileAttr, uid: nat, gid: nat): Mode
  {
    if attr.uid == uid then attr.mode
    else if attr.gid == gid then Truncate(attr.mode << 3)
    else Truncate(attr.mode << 6)
  }

  /// `FileAttr::check_access`.
  function CheckAccess(attr: FileAttr, uid: nat, gid: nat, requested: Access): Result<()>
  {
    if uid == ROOT_UID && (requested & X_OK == 0 || attr.mode & (S_IXUSR | S_IXGRP | S_IXOTH) != 0) then Ok(())
    else
      var perms := SelectedBits(attr, uid, gid);
      if requested & R_OK != 0 && perms & S_IRUSR == 0 then Err(NotPermitted)
      else if requested & W_OK != 0 && perms & S_IWUSR == 0 then Err(NotPermitted)
      else if requested & X_OK != 0 && perms & S_IXUSR == 0 then Err(NotPermitted)
      else Ok(())
  }

  // ---------------------------------------------------------------------
  // The rule stated without shifts

  /// The three permission classes of a file.
  datatype Class = Owner | Group | Other

  /// The class a caller falls in: owner by uid first, then group by gid.
  function ClassOf(attr: FileAttr, uid: nat, gid: nat): Class
  {
    if attr.uid == uid then Owner else if attr.gid == gid then Group else Other
  }

  /// The mode bits granting read, write and execute to each class.
  function ReadBit(c: Class): Mode
  {
    match c
    case Owner => S_IRUSR
    case Group => S_IRGRP
    case Other => S_IROTH
  }

  function WriteBit(c: Class): Mode
  {
    match c
    case Owner => S_IWUSR
    case Group => S_IWGRP
    case Other => S_IWOTH
  }

  function ExecBit(c: Class): Mode
  {
    match c
    case Owner => S_IXUSR
    case Group => S_IXGRP
    case Other => S_IXOTH
  }

  /// Whether the caller's class holds every requested permission.
  predicate Grants(attr: FileAttr, c: Class, requested: Access)
  {
    && (requested & R_OK != 0 ==> attr.mode & ReadBit(c) != 0)
    && (requested & W_OK != 0 ==> attr.mode & WriteBit(c) != 0)
    && (requested & X_OK != 0 ==> attr.mode & ExecBit(c) != 0)
  }

  /// The shifted word holds, in the owner position, exactly the bits of
  /// the caller's class.
  lemma SelectedBitsOfClass(attr: FileAttr, uid: nat, gid: nat)
    ensures var perms, c := SelectedBits(attr, uid, gid), ClassOf(attr, uid, gid);
      && (perms & S_IRUSR != 0 <==> attr.mode & ReadBit(c) != 0)
      && (perms & S_IWUSR != 0 <==> attr.mode & WriteBit(c) != 0)
      && (perms & S_IXUSR != 0 <==> attr.mode & ExecBit(c) != 0)
  {
    var m := attr.mode;
    if attr.uid != uid {
      if attr.gid == gid {
        assert Truncate(m << 3) & S_IRUSR == (m & S_IRGRP) << 3;
        assert Truncate(m << 3) & S_IWUSR == (m & S_IWGRP) << 3;
        assert Truncate(m << 3) & S_IXUSR == (m & S_IXGRP) << 3;
      } else {
        assert Truncate(m << 6) & S_IRUSR == (m & S_IROTH) << 6;
        assert Truncate(m << 6) & S_IWUSR == (m & S_IWOTH) << 6;
        assert Truncate(m << 6) & S_IXUSR == (m & S_IXOTH) << 6;
      }
    }
  }

  /// Everyone but root is granted exactly what the bits of their class
  /// allow; a single missing bit is refused with `NotPermitted`.
  lemma CheckAccessByClass(attr: FileAttr, uid: nat, gid: nat, requested: Access)
    requires uid != ROOT_UID
    ensures CheckAccess(attr, uid, gid, requested) ==
      if Grants(attr, ClassOf(attr, uid, gid), requested) then Ok(()) else Err(NotPermitted)
  {
    SelectedBitsOfClass(attr, uid, gid);
  }

  /// Root is granted any request without execute.
  lemma RootWithoutExecute(attr: FileAttr, gid: nat, requested: Access)
    requires requested & X_OK == 0
    ensures CheckAccess(attr, ROOT_UID, gid, requested) == Ok(())
  {
  }

  /// Root may execute exactly when some class may; otherwise it is refused.
  lemma RootExecute(attr: FileAttr, gid: nat, requested: Access)
    requires requested & X_OK != 0
    ensures CheckAccess(attr, ROOT_UID, gid, requested) ==
      if attr.mode & (S_IXUSR | S_IXGRP | S_IXOTH) != 0 then Ok(()) else Err(NotPermitted)
  {
    SelectedBitsOfClass(attr, ROOT_UID, gid);
    var c := ClassOf(attr, ROOT_UID, gid);
    assert attr.mode & (S_IXUSR | S_IXGRP | S_IXOTH) == 0 ==> attr.mode & ExecBit(c) == 0;
  }

  /// The owner is judged by the owner bits alone: the group and other bits
  /// make no difference, whatever they allow.
  lemma OwnerIgnoresOtherClasses(attr: FileAttr, mode: Mode, gid: nat, requested: Access)
    requires attr.uid != ROOT_UID && mode & 0x1C0 == attr.mode & 0x1C0
    ensures CheckAccess(attr.(mode := mode), attr.uid, gid, requested) == CheckAccess(attr, attr.uid, gid, requested)
  {
    CheckAccessByClass(attr, attr.uid, gid, requested);
    CheckAccessByClass(attr.(mode := mode), attr.uid, gid, requested);
    assert mode & S_IRUSR == attr.mode & S_IRUSR;
    assert mode & S_IWUSR == attr.mode & S_IWUSR;
    assert mode & S_IXUSR == attr.mode & S_IXUSR;
  }

  /// A caller outside the owner and the group gains nothing from the owner
  /// and group bits: only the other bits count.
  lemma OtherIgnoresOwnerAndGroup(attr: FileAttr, mode: Mode, uid: nat, gid: nat, requested: Access)
    requires uid != ROOT_UID && attr.uid != uid && attr.gid != gid && mode & 0x7 == attr.mode & 0x7
    ensures CheckAccess(attr.(mode := mode), uid, gid, requested) == CheckAccess(attr, uid, gid, requested)
  {
    CheckAccessByClass(attr, uid, gid, requested);
    CheckAccessByClass(attr.(mode := mode), uid, gid, requested);
    assert mode & S_IROTH == attr.mode & S_IROTH;
    assert mode & S_IWOTH == attr.mode & S_IWOTH;
    assert mode & S_IXOTH == attr.mode & S_IXOTH;
  }

  /// A request for nothing is always granted.
  lemma EmptyRequest(attr: FileAttr, uid: nat, gid: nat, requested: Access)
    requires requested & (R_OK | W_OK | X_OK) == 0
    ensures CheckAccess(attr, uid, gid, requested) == Ok(())
  {
    assert requested & R_OK == 0 && requested & W_OK == 0 && requested & X_OK == 0;
  }
}
