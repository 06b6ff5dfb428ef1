/** A mounted volume: its bytes and geometry, and the directory graph they make up. */
module Volumes {
  import opened Memory
  import opened Ext2Disk
  import opened PathSpec

  datatype Volume = Volume(disk: Bytes, info: Info) {
    /** The driver's inode struct has room for this inode size, and the geometry is regular. */
    predicate Usable() {
      Regular(info) && info.inodeSize == INODE_SIZE
    }

    predicate ValidInode(n: nat)
      requires Usable()
    {
      1 <= n && InodeBytes(disk, info, n).Ok?
    }

    function KindOf(n: nat): nat
      requires Usable()
    {
      if ValidInode(n) then TypeBits(InodeBytes(disk, info, n).value) else 0
    }

    /** The block that i_block[0] of inode n points to. */
    function BlockOf(n: nat): Result<Bytes>
      requires Usable()
    {
      if ValidInode(n) then
        HddRead(disk, info.blockSize / SECTOR, FirstBlock(InodeBytes(disk, info, n).value) * (info.blockSize / SECTOR))
      else Err(ENOENT)
    }

    /** With the given inodes taken to be in use. */
    function DirectoryGraph(live: nat -> bool): Graph
      requires Usable()
    {
      Graph(live, (n: nat) => ValidInode(n), (n: nat) => KindOf(n), (n: nat) => BlockOf(n))
    }
  }

  /** The graph is the one the volume's bytes make up. */
  ghost predicate Backs(v: Volume, g: Graph) {
    v.Usable() && forall n :: BacksAt(v, g, n)
  }

  predicate BacksAt(v: Volume, g: Graph, n: nat)
    requires v.Usable()
  {
    g.valid(n) == v.ValidInode(n) && g.kind(n) == v.KindOf(n) && g.block(n) == v.BlockOf(n)
  }

  lemma VolumeBacksItsGraph(v: Volume, live: nat -> bool)
    requires v.Usable()
    ensures Backs(v, v.DirectoryGraph(live))
  {
    forall n
      ensures BacksAt(v, v.DirectoryGraph(live), n)
    {
    }
  }

  lemma KindOfInode(v: Volume, n: nat, inode: Bytes)
    requires v.Usable() && 1 <= n && InodeBytes(v.disk, v.info, n) == Ok(inode)
    ensures v.KindOf(n) == TypeBits(inode)
  {
  }

  /** An inode's type is the high four bits of its first two bytes. */
  lemma KindIsHighBits(v: Volume, n: nat, inode: Bytes, mode: nat)
    requires v.Usable() && 1 <= n && InodeBytes(v.disk, v.info, n) == Ok(inode)
    requires mode == LittleEndian(inode[0..2])
    ensures v.KindOf(n) % 0x1000 == 0 && v.KindOf(n) <= mode < v.KindOf(n) + 0x1000
  {
    KindOfInode(v, n, inode);
    HighBits(mode);
  }

  lemma HighBits(mode: nat)
    ensures mode / 0x1000 * 0x1000 % 0x1000 == 0
    ensures mode / 0x1000 * 0x1000 <= mode < mode / 0x1000 * 0x1000 + 0x1000
  {
  }

  /** A directory is the block of the disk whose number stands in bytes 40 to 43 of its inode; it cannot be
      read exactly if that block does not end on the disk. */
  lemma BlockOnDisk(v: Volume, n: nat, inode: Bytes, start: nat)
    requires v.Usable() && 1 <= n && InodeBytes(v.disk, v.info, n) == Ok(inode)
    requires start == LittleEndian(inode[40..44]) * v.info.blockSize
    ensures v.BlockOf(n)
            == if start + v.info.blockSize <= |v.disk| then Ok(v.disk[start..start + v.info.blockSize]) else Err(EIO)
  {
    BlockRead(v.disk, FirstBlock(inode), v.info.blockSize);
  }

  lemma BlockRead(disk: Bytes, block: nat, blockSize: nat)
    requires blockSize % SECTOR == 0
    ensures HddRead(disk, blockSize / SECTOR, block * (blockSize / SECTOR))
            == if block * blockSize + blockSize <= |disk|
               then Ok(disk[block * blockSize..block * blockSize + blockSize])
               else Err(EIO)
  {
    BlocksAreSectors(block, blockSize);
    ScaledSectors(block * (blockSize / SECTOR), blockSize / SECTOR);
  }

  /** get_direntry: fetch the inode of an entry and take the type bits of its mode. */
  method FetchKind(v: Volume, ghost g: Graph, n: nat) returns (kind: nat)
    requires Backs(v, g) && g.valid(n)
    ensures kind == g.kind(n)
  {
    assert BacksAt(v, g, n);
    var inode := new Byte[INODE_SIZE];
    var r := FetchInode(v.disk, v.info, n, inode);
    assert inode[..] == InodeBytes(v.disk, v.info, n).value;
    kind := TypeBits(inode[..]);
  }

  /** The reads of ext2_get_direntries: the directory's inode, then its first block. */
  method FetchBlock(v: Volume, ghost g: Graph, n: nat) returns (r: Result<Bytes>)
    requires Backs(v, g) && g.valid(n)
    ensures r == g.block(n)
  {
    assert BacksAt(v, g, n);
    var inode := new Byte[INODE_SIZE];
    var read := FetchInode(v.disk, v.info, n, inode);
    assert inode[..] == InodeBytes(v.disk, v.info, n).value;
    r := HddRead(v.disk, v.info.blockSize / SECTOR, FirstBlock(inode[..]) * (v.info.blockSize / SECTOR));
  }
}
