/// `mount`: the flag truncation, the early return on a recursive mount,
/// the order of the three user strings, and the aliasing of device names
/// to the file system drivers' names.
module Mount {
  import opened Common

  const MS_REC: bv64 := 0x4000

  /// Every bit `MountFlags` names: bits 0 to 31 except bit 9.
  const KNOWN_FLAGS: bv64 := 0xFFFF_FDFF

  /// `MountFlags::from_bits_truncate` of the raw flags.
  function TruncateFlags(raw: bv64): (f: bv64)
    ensures f & !KNOWN_FLAGS == 0
    ensures (f & MS_REC != 0) <==> (raw & MS_REC != 0)
  {
    raw & KNOWN_FLAGS
  }

  /// The driver name a device name stands for.
  function FsName(dev: string): (name: string)
    ensures dev == "proc" ==> name == "procfs"
    ensures dev == "devtmpfs" ==> name == "devfs"
    ensures dev == "cgroup2" ==> name == "cgroupfs"
    ensures dev !in {"proc", "devtmpfs", "cgroup2"} ==> name == dev
  {
    match dev
    case "proc" => "procfs"
    case "devtmpfs" => "devfs"
    case "cgroup2" => "cgroupfs"
    case _ => dev
  }

  /// Aliasing is idempotent: no alias names another alias.
  lemma FsNameIdempotent(dev: string)
    ensures FsName(FsName(dev)) == FsName(dev)
  {
    if dev == "proc" {
      assert FsName(dev) == "procfs";
      assert "procfs" != "proc" && "procfs" != "devtmpfs" && "procfs" != "cgroup2";
    } else if dev == "devtmpfs" {
      assert FsName(dev) == "devfs";
      assert "devfs" != "proc" && "devfs" != "devtmpfs" && "devfs" != "cgroup2";
    } else if dev == "cgroup2" {
      assert FsName(dev) == "cgroupfs";
      assert "cgroupfs" != "proc" && "cgroupfs" != "devtmpfs" && "cgroupfs" != "cgroup2";
    }
  }

  /// What `sys_mount` asks of the VFS.
  datatype MountAction = Skipped | MountFs(mountPoint: nat, fsName: string)

  /// `sys_mount`. `devName` is the device name when it could be copied,
  /// `dirName` the result of copying the directory name, and `resolve`
  /// path resolution from the root. The file system type string is read
  /// but never used, so it is not a parameter.
  function SysMount(devName: Option<string>, dirName: Result<string>, resolve: string -> Result<nat>,
                    flags: bv64): (r: Result<MountAction>)
    ensures r == Ok(Skipped) <==> flags & MS_REC != 0
    ensures flags & MS_REC == 0 && dirName.Err? ==> r == Err(dirName.error)
    ensures (flags & MS_REC == 0 && dirName.Ok? && resolve(dirName.value).Err?)
              ==> r == Err(resolve(dirName.value).error)
    ensures flags & MS_REC == 0 && dirName.Ok? && resolve(dirName.value).Ok? ==>
      r == (if devName.None? then Err(NotSupported)
            else Ok(MountFs(resolve(dirName.value).value, FsName(devName.value))))
  {
    var f := TruncateFlags(flags);
    if f & MS_REC != 0 then Ok(Skipped)
    else match dirName
      case Err(e) => Err(e)
      case Ok(dir) =>
        match resolve(dir)
        case Err(e) => Err(e)
        case Ok(mountPoint) =>
          match devName
          case None => Err(NotSupported)
          case Some(dev) => Ok(MountFs(mountPoint, FsName(dev)))
  }

  /// Flag bits `MountFlags` does not name never change the outcome.
  lemma UnknownFlagsIgnored(devName: Option<string>, dirName: Result<string>, resolve: string -> Result<nat>,
                            flags: bv64, extra: bv64)
    requires extra & KNOWN_FLAGS == 0
    ensures SysMount(devName, dirName, resolve, flags | extra) == SysMount(devName, dirName, resolve, flags)
  {
    assert (flags | extra) & MS_REC == flags & MS_REC;
  }
}
