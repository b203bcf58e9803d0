/// ext4: where the superblock, the block-group descriptors and the inodes
/// lie on the device, and the attributes of the root directory.
module Ext4 {
  import opened Common

  /// The superblock fields the driver uses.
  datatype SuperBlock = SuperBlock(
    magic: nat,
    logBlockSize: nat,
    inodesPerGroup: nat,
    inodeSize: nat,
    descSize: nat)

  /// The block-group descriptor fields the driver uses.
  datatype GroupDesc = GroupDesc(inodeTableLo: nat, inodeTableHi: nat)

  /// The on-disk inode fields the root inode is built from.
  datatype DiskInode = DiskInode(mode: bv16, uid: nat, gid: nat, sizeLo: nat, sizeHigh: nat)

  const EXT4_MAGIC: nat := 0xEF53

  /// The byte offset of the superblock.
  const SUPERBLOCK_OFFSET: nat := 1024

  /// The root directory's inode number.
  const ROOT_INO: nat := 2

  /// `Ext4Filesystem::new`: the superblock read at byte 1024 must carry the
  /// ext4 magic number.
  function Mount(superblock: Result<SuperBlock>): (r: Result<SuperBlock>)
    ensures r.Ok? <==> superblock.Ok? && superblock.value.magic == EXT4_MAGIC
    ensures r.Ok? ==> r == superblock
    ensures superblock.Err? ==> r == superblock
    ensures superblock.Ok? && superblock.value.magic != EXT4_MAGIC ==> r == Err(InvalidFs)
  {
    match superblock
    case Err(e) => Err(e)
    case Ok(sb) => if sb.magic != EXT4_MAGIC then Err(InvalidFs) else Ok(sb)
  }

  /// `1024u64 << log_block_size`: bits shifted past 64 are lost; a shift of
  /// 64 or more is refused by the language.
  function BlockSize(sb: SuperBlock): (bs: nat)
    requires sb.logBlockSize < 64
    ensures bs < U64_LIMIT
    ensures sb.logBlockSize <= 53 ==> bs == 1024 * Pow2(sb.logBlockSize)
  {
    assert sb.logBlockSize <= 53 ==> 1024 * Pow2(sb.logBlockSize) < U64_LIMIT by {
      if sb.logBlockSize <= 53 {
        Pow2Add(sb.logBlockSize, 54 - sb.logBlockSize);
        Pow2Add(10, 54);
        Pow2Of64();
      }
    }
    (1024 * Pow2(sb.logBlockSize)) % U64_LIMIT
  }

  lemma Pow2Of64()
    ensures Pow2(10) == 1024 && Pow2(64) == U64_LIMIT
  {
    assert Pow2(1) == 2;
    Pow2Add(1, 1);
    assert Pow2(2) == 4;
    Pow2Add(2, 2);
    assert Pow2(4) == 16;
    Pow2Add(4, 4);
    assert Pow2(8) == 256;
    Pow2Add(8, 2);
    Pow2Add(8, 8);
    assert Pow2(16) == 0x1_0000;
    Pow2Add(16, 16);
    assert Pow2(32) == 0x1_0000_0000;
    Pow2Add(32, 32);
  }

  /// The size of a group descriptor: 0 in the superblock means 32.
  function DescSize(sb: SuperBlock): (n: nat)
    ensures n > 0
  {
    if sb.descSize == 0 then 32 else sb.descSize
  }

  /// The size of an inode: 0 in the superblock means 128.
  function InodeSize(sb: SuperBlock): (n: nat)
    ensures n > 0
  {
    if sb.inodeSize == 0 then 128 else sb.inodeSize
  }

  /// The block the descriptor table starts at: the one after the
  /// superblock's, which is block 1 for 1 KiB blocks and block 0 otherwise.
  function DescriptorBlock(sb: SuperBlock): nat
    requires sb.logBlockSize < 64
  {
    if BlockSize(sb) == 1024 then 2 else 1
  }

  /// `read_group_desc`: the byte offset of group `group`'s descriptor.
  function DescriptorOffset(sb: SuperBlock, group: nat): nat
    requires sb.logBlockSize < 64
  {
    DescriptorBlock(sb) * BlockSize(sb) + group * DescSize(sb)
  }

  /// For every real block size the descriptor table begins past the end
  /// of the superblock, and descriptors of different groups do not
  /// overlap.
  lemma DescriptorsAfterSuperblock(sb: SuperBlock, g: nat, h: nat)
    requires sb.logBlockSize <= 53 && g < h
    ensures DescriptorOffset(sb, g) >= SUPERBLOCK_OFFSET + 1024
    ensures DescriptorOffset(sb, g) + DescSize(sb) <= DescriptorOffset(sb, h)
  {
    var bs := BlockSize(sb);
    assert bs >= 1024 by {
      assert Pow2(sb.logBlockSize) >= 1;
    }
    if sb.logBlockSize > 0 {
      assert Pow2(sb.logBlockSize) == 2 * Pow2(sb.logBlockSize - 1);
    }
    MulLe(g + 1, h, DescSize(sb));
  }

  /// Where inode `ino` lives: its group and its index in that group's
  /// table; inode numbers start at 1.
  datatype InodeSlot = InodeSlot(group: nat, index: nat)

  function Slot(sb: SuperBlock, ino: nat): (r: Result<InodeSlot>)
    requires ino == 0 || sb.inodesPerGroup > 0
    ensures ino == 0 <==> r == Err(InvalidValue)
    ensures r.Ok? ==>
      r.value.index < sb.inodesPerGroup && ino == r.value.group * sb.inodesPerGroup + r.value.index + 1
  {
    if ino == 0 then Err(InvalidValue)
    else Ok(InodeSlot((ino - 1) / sb.inodesPerGroup, (ino - 1) % sb.inodesPerGroup))
  }

  /// Each slot holds exactly one inode number.
  lemma SlotRoundTrip(sb: SuperBlock, group: nat, index: nat)
    requires sb.inodesPerGroup > 0 && index < sb.inodesPerGroup
    ensures Slot(sb, group * sb.inodesPerGroup + index + 1) == Ok(InodeSlot(group, index))
  {
    DivAdd(group, sb.inodesPerGroup, index);
  }

  /// `inode_table_lo | inode_table_hi << 32`.
  function InodeTableBlock(desc: GroupDesc): (b: nat)
    requires desc.inodeTableLo < U32_LIMIT
    ensures b % U32_LIMIT == desc.inodeTableLo && b / U32_LIMIT == desc.inodeTableHi
  {
    DivAdd(desc.inodeTableHi, U32_LIMIT, desc.inodeTableLo);
    desc.inodeTableHi * U32_LIMIT + desc.inodeTableLo
  }

  /// The byte offset of the inode at `index` in the table `desc` locates.
  function InodeOffset(sb: SuperBlock, desc: GroupDesc, index: nat): nat
    requires sb.logBlockSize < 64 && desc.inodeTableLo < U32_LIMIT
  {
    InodeTableBlock(desc) * BlockSize(sb) + index * InodeSize(sb)
  }

  /// Two inodes of one group occupy disjoint bytes of its table.
  lemma InodesDisjoint(sb: SuperBlock, desc: GroupDesc, i: nat, j: nat)
    requires sb.logBlockSize < 64 && desc.inodeTableLo < U32_LIMIT && i < j
    ensures InodeOffset(sb, desc, i) + InodeSize(sb) <= InodeOffset(sb, desc, j)
  {
    MulLe(i + 1, j, InodeSize(sb));
  }

  /// A read of the device: the descriptor or inode stored at a byte offset.
  type Reader<T> = nat -> Result<T>

  /// `read_inode`: inode 0 is invalid; otherwise the group's descriptor is
  /// read, then the inode at its slot in the table the descriptor names.
  function ReadInode(sb: SuperBlock, ino: nat, descAt: Reader<GroupDesc>, inodeAt: Reader<DiskInode>): (r: Result<DiskInode>)
    requires sb.logBlockSize < 64 && (ino == 0 || sb.inodesPerGroup > 0)
    requires forall o :: descAt(o).Ok? ==> descAt(o).value.inodeTableLo < U32_LIMIT
    ensures ino == 0 ==> r == Err(InvalidValue)
    ensures ino > 0 ==>
      var slot := Slot(sb, ino).value;
      var desc := descAt(DescriptorOffset(sb, slot.group));
      r == if desc.Err? then Err(desc.error) else inodeAt(InodeOffset(sb, desc.value, slot.index))
  {
    match Slot(sb, ino)
    case Err(e) => Err(e)
    case Ok(slot) =>
      match descAt(DescriptorOffset(sb, slot.group))
      case Err(e) => Err(e)
      case Ok(desc) => inodeAt(InodeOffset(sb, desc, slot.index))
  }

  /// The file types the root inode can report.
  datatype FileType = File | Directory | Symlink

  /// The type field of an inode mode: directory, regular file and symlink
  /// are recognised; any other type is reported as a regular file.
  function FileTypeOf(mode: bv16): (t: FileType)
    ensures t == Directory <==> mode & 0xF000 == 0x4000
    ensures t == Symlink <==> mode & 0xF000 == 0xA000
  {
    var kind := mode & 0xF000;
    if kind == 0x4000 then Directory
    else if kind == 0x8000 then File
    else if kind == 0xA000 then Symlink
    else File
  }

  /// The attributes of the root inode.
  datatype RootAttr = RootAttr(fs: nat, ino: nat, fileType: FileType, perms: bv16, uid: nat, gid: nat, size: nat)

  /// The 64-bit size `size_high << 32 | size_lo`.
  function FileSize(inode: DiskInode): (n: nat)
    requires inode.sizeLo < U32_LIMIT
    ensures n % U32_LIMIT == inode.sizeLo && n / U32_LIMIT == inode.sizeHigh
  {
    DivAdd(inode.sizeHigh, U32_LIMIT, inode.sizeLo);
    inode.sizeHigh * U32_LIMIT + inode.sizeLo
  }

  /// `root_inode`: reads inode 2 and builds its attributes; the permissions
  /// are the low nine mode bits.
  function RootInode(sb: SuperBlock, fs: nat, descAt: Reader<GroupDesc>, inodeAt: Reader<DiskInode>): (r: Result<RootAttr>)
    requires sb.logBlockSize < 64 && sb.inodesPerGroup > 0
    requires forall o :: descAt(o).Ok? ==> descAt(o).value.inodeTableLo < U32_LIMIT
    requires forall o :: inodeAt(o).Ok? ==> inodeAt(o).value.sizeLo < U32_LIMIT
    ensures r.Ok? <==> ReadInode(sb, ROOT_INO, descAt, inodeAt).Ok?
    ensures r.Ok? ==>
      var inode := ReadInode(sb, ROOT_INO, descAt, inodeAt).value;
      && r.value.fs == fs && r.value.ino == ROOT_INO
      && r.value.perms == inode.mode & 0x1FF
      && r.value.size % U32_LIMIT == inode.sizeLo && r.value.size / U32_LIMIT == inode.sizeHigh
      && r.value.uid == inode.uid && r.value.gid == inode.gid
      && r.value.fileType == FileTypeOf(inode.mode)
  {
    match ReadInode(sb, ROOT_INO, descAt, inodeAt)
    case Err(e) => Err(e)
    case Ok(inode) =>
      Ok(RootAttr(fs, ROOT_INO, FileTypeOf(inode.mode), inode.mode & 0x1FF, inode.uid, inode.gid, FileSize(inode)))
  }

  /// The root of a file system with the default layout (one inode per
  /// slot from 1, 1 KiB blocks): inode 2 is the second inode of group 0,
  /// read from the descriptor at byte 2048.
  lemma RootInodeLocation(sb: SuperBlock)
    requires sb.logBlockSize == 0 && sb.inodesPerGroup > 1
    ensures Slot(sb, ROOT_INO) == Ok(InodeSlot(0, 1))
    ensures DescriptorOffset(sb, 0) == 2048
  {
    assert BlockSize(sb) == 1024;
  }
}
