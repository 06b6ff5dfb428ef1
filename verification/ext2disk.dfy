/** The on-disk structures of an ext2 volume as the driver finds them: superblock, group descriptors and
    inodes, as positions in the bytes of the partition. */
module Ext2Disk {
  import opened Arithmetic
  import opened Memory

  const SECTOR: nat := 512
  const DESCRIPTOR_SIZE: nat := 32
  const INODE_SIZE: nat := 128
  const SIGNATURE: nat := 0xef53

  /** The driver's error returns, and the processor's trap on a zero divisor. */
  datatype Errno = EIO | ENOENT | ENOTDIR | ENOTSUP | DivideFault
  datatype Result<T> = Ok(value: T) | Err(error: Errno)

  /** hdd_read: whole sectors, or an error past the end of the partition. */
  function HddRead(disk: Bytes, sectors: nat, lba: nat): Result<Bytes> {
    if (lba + sectors) * SECTOR <= |disk| then Ok(disk[lba * SECTOR..(lba + sectors) * SECTOR]) else Err(EIO)
  }

  function Read16(b: Bytes, a: nat): nat
    requires a + 2 <= |b|
  {
    LittleEndian(b[a..a + 2])
  }

  function Read32(b: Bytes, a: nat): nat
    requires a + 4 <= |b|
  {
    LittleEndian(b[a..a + 4])
  }

  lemma BlocksAreSectors(block: nat, blockSize: nat)
    requires blockSize % SECTOR == 0
    ensures block * (blockSize / SECTOR) * SECTOR == block * blockSize
  {
    assert blockSize == blockSize / SECTOR * SECTOR;
  }

  lemma ScaledSectors(a: nat, b: nat)
    ensures (a + b) * SECTOR == a * SECTOR + b * SECTOR
  {
  }

  lemma Distribute(a: int, b: int, c: int)
    ensures (a + b) * c == a * c + b * c
  {
  }

  lemma SliceOfSlice(s: Bytes, a: nat, b: nat, c: nat, d: nat)
    requires a <= b <= |s| && c <= d <= b - a
    ensures s[a..b][c..d] == s[a + c..a + d]
  {
    forall k | 0 <= k < d - c
      ensures s[a..b][c..d][k] == s[a + c..a + d][k]
    {
    }
  }

  /** What ext2_mount keeps of a volume: the sizes from the superblock and the descriptor table. */
  datatype Info = Info(totalInodes: nat, totalBlocks: nat, blocksPerGroup: nat, inodesPerGroup: nat,
                       inodeSize: nat, blockSize: nat, gdCount: nat, descriptors: Bytes)
  {
    /** bg_inode_table of a group. */
    function InodeTable(group: nat): nat
      requires DESCRIPTOR_SIZE * group + 12 <= |descriptors|
    {
      Read32(descriptors, DESCRIPTOR_SIZE * group + 8)
    }
  }

  /** 0x400 << n */
  function ShiftedBlock(n: nat): nat {
    if n == 0 then 0x400 else 2 * ShiftedBlock(n - 1)
  }

  /** The sectors that ext2_mount reads for a descriptor table of gdCount entries. */
  function TableSectors(gdCount: nat): nat {
    var size := gdCount * DESCRIPTOR_SIZE;
    size / SECTOR + if size % SECTOR != 0 then 1 else 0
  }

  /** Full groups, and one more. */
  function GroupCount(totalBlocks: nat, blocksPerGroup: nat): nat
    requires blocksPerGroup > 0
  {
    totalBlocks / blocksPerGroup + 1
  }

  /** The part of ext2_mount before the root directory is read: probe, superblock, descriptor table. */
  function MountInfo(disk: Bytes): (r: Result<Info>)
    ensures r.Ok? ==> |r.value.descriptors| == TableSectors(r.value.gdCount) * SECTOR
  {
    match HddRead(disk, 2, 2)
    case Err(e) => Err(e)
    case Ok(sb) =>
      if Read16(sb, 56) != SIGNATURE then Err(ENOTSUP)
      else if Read32(sb, 32) == 0 then Err(DivideFault)
      else
        var blockSize := ShiftedBlock(Read32(sb, 24));
        var gdCount := GroupCount(Read32(sb, 4), Read32(sb, 32));
        var lba := (if blockSize == 0x400 then 2 else 1) * (blockSize / SECTOR);
        match HddRead(disk, TableSectors(gdCount), lba)
        case Err(e) => Err(e)
        case Ok(table) =>
          Ok(Info(Read32(sb, 0), Read32(sb, 4), Read32(sb, 32), Read32(sb, 40), Read16(sb, 88), blockSize, gdCount,
                  table))
  }

  /** The geometry on which the driver's inode arithmetic is right: inodes pack into sectors, sectors into
      blocks, and there is a descriptor for every group. */
  predicate Regular(i: Info) {
    && 0 < i.inodeSize <= SECTOR && SECTOR % i.inodeSize == 0
    && 0 < i.blockSize && i.blockSize % SECTOR == 0
    && 0 < i.inodesPerGroup
    && |i.descriptors| >= i.gdCount * DESCRIPTOR_SIZE
    && i.totalInodes <= i.gdCount * i.inodesPerGroup
  }

  function InodesPerSector(i: Info): (ips: nat)
    requires 0 < i.inodeSize <= SECTOR
    ensures ips > 0
  {
    SECTOR / i.inodeSize
  }

  /** The group index is inside the descriptor table exactly when the table covers the inode. */
  lemma GroupInTableIff(i: Info, n: nat)
    requires 0 < i.inodesPerGroup && 1 <= n
    ensures (n - 1) / i.inodesPerGroup < i.gdCount <==> n <= i.gdCount * i.inodesPerGroup
  {
    var q, r := (n - 1) / i.inodesPerGroup, (n - 1) % i.inodesPerGroup;
    assert n - 1 == q * i.inodesPerGroup + r;
    if q < i.gdCount {
      MulMonotone(q + 1, i.gdCount, i.inodesPerGroup);
      assert (q + 1) * i.inodesPerGroup == q * i.inodesPerGroup + i.inodesPerGroup;
    } else {
      MulMonotone(i.gdCount, q, i.inodesPerGroup);
    }
  }

  /** The descriptor table that ext2_mount reads holds every descriptor it counted. */
  lemma TableCovers(gdCount: nat)
    ensures TableSectors(gdCount) * SECTOR >= gdCount * DESCRIPTOR_SIZE
  {
  }

  lemma {:induction false} BlocksHoldSectors(n: nat)
    ensures ShiftedBlock(n) > 0 && ShiftedBlock(n) % SECTOR == 0
  {
    if n > 0 {
      BlocksHoldSectors(n - 1);
      DoubleSectors(ShiftedBlock(n - 1));
    }
  }

  lemma DoubleSectors(x: nat)
    requires x % SECTOR == 0
    ensures 2 * x % SECTOR == 0
  {
  }

  /** What ext2_mount computes is regular exactly when the superblock's own fields are: sizes and the
      descriptor table are right for every disk. */
  lemma MountIsRegularIff(disk: Bytes)
    requires MountInfo(disk).Ok?
    ensures var i := MountInfo(disk).value;
            Regular(i) <==>
              && 0 < i.inodeSize <= SECTOR && SECTOR % i.inodeSize == 0
              && 0 < i.inodesPerGroup && i.totalInodes <= i.gdCount * i.inodesPerGroup
  {
    BlocksHoldSectors(Read32(HddRead(disk, 2, 2).value, 24));
    TableCovers(MountInfo(disk).value.gdCount);
  }

  // --- where the fields come from ---

  lemma {:induction false} ShiftIsPower(n: nat)
    ensures ShiftedBlock(n) == 0x400 * TwoTo(n)
  {
    if n > 0 {
      ShiftIsPower(n - 1);
    }
  }

  /** The block that the descriptor table starts at is the one behind the superblock's. */
  lemma TableBehindSuperblock(blockSize: nat)
    requires blockSize >= 0x400 && blockSize % SECTOR == 0
    ensures (if blockSize == 0x400 then 2 else 1) * (blockSize / SECTOR) * SECTOR
            == (1024 / blockSize + 1) * blockSize
  {
    BlocksAreSectors(if blockSize == 0x400 then 2 else 1, blockSize);
  }

  /** The read of the descriptor table: where its bytes are, and when it fails. */
  lemma TableRead(disk: Bytes, gdCount: nat, blockSize: nat)
    requires blockSize >= 0x400 && blockSize % SECTOR == 0
    ensures var start := (1024 / blockSize + 1) * blockSize;
            var length := (gdCount * 32 + 511) / 512 * 512;
            && length == TableSectors(gdCount) * SECTOR
            && HddRead(disk, TableSectors(gdCount), (if blockSize == 0x400 then 2 else 1) * (blockSize / SECTOR))
               == if start + length <= |disk| then Ok(disk[start..start + length]) else Err(EIO)
  {
    TableBehindSuperblock(blockSize);
    ScaledSectors((if blockSize == 0x400 then 2 else 1) * (blockSize / SECTOR), TableSectors(gdCount));
  }

  /** The sizes that ext2_mount computes, from the disk's bytes. */
  lemma BlockSizeRead(disk: Bytes, sb: Bytes)
    requires |disk| >= 2048 && sb == disk[1024..2048]
    ensures ShiftedBlock(Read32(sb, 24)) == 1024 * TwoTo(LittleEndian(disk[1048..1052])) >= 1024
    ensures ShiftedBlock(Read32(sb, 24)) % SECTOR == 0
  {
    SliceOfSlice(disk, 1024, 2048, 24, 28);
    ShiftIsPower(Read32(sb, 24));
    BlocksHoldSectors(Read32(sb, 24));
  }

  lemma FieldsRead(disk: Bytes, sb: Bytes)
    requires |disk| >= 2048 && sb == disk[1024..2048]
    ensures Read16(sb, 56) == LittleEndian(disk[1080..1082]) && Read16(sb, 88) == LittleEndian(disk[1112..1114])
    ensures Read32(sb, 0) == LittleEndian(disk[1024..1028]) && Read32(sb, 4) == LittleEndian(disk[1028..1032])
    ensures Read32(sb, 32) == LittleEndian(disk[1056..1060]) && Read32(sb, 40) == LittleEndian(disk[1064..1068])
  {
    SliceOfSlice(disk, 1024, 2048, 56, 58);
    SliceOfSlice(disk, 1024, 2048, 88, 90);
    SliceOfSlice(disk, 1024, 2048, 0, 4);
    SliceOfSlice(disk, 1024, 2048, 4, 8);
    SliceOfSlice(disk, 1024, 2048, 32, 36);
    SliceOfSlice(disk, 1024, 2048, 40, 44);
  }

  /** Mounting reads each size from its place in the superblock, which begins at byte 1024. */
  lemma MountReadsFields(disk: Bytes, i: Info)
    requires MountInfo(disk) == Ok(i)
    ensures |disk| >= 2048 && LittleEndian(disk[1080..1082]) == 0xef53
    ensures i.totalInodes == LittleEndian(disk[1024..1028]) && i.totalBlocks == LittleEndian(disk[1028..1032])
    ensures i.blocksPerGroup == LittleEndian(disk[1056..1060]) > 0
    ensures i.inodesPerGroup == LittleEndian(disk[1064..1068]) && i.inodeSize == LittleEndian(disk[1112..1114])
    ensures i.blockSize == 1024 * TwoTo(LittleEndian(disk[1048..1052]))
  {
    var sb := HddRead(disk, 2, 2).value;
    FieldsRead(disk, sb);
    BlockSizeRead(disk, sb);
  }

  /** There is a descriptor for every full group and one more. */
  lemma MountCountsGroups(disk: Bytes, i: Info)
    requires MountInfo(disk) == Ok(i)
    ensures (i.gdCount - 1) * i.blocksPerGroup <= i.totalBlocks < i.gdCount * i.blocksPerGroup
  {
    FullGroups(i.totalBlocks, i.blocksPerGroup, i.gdCount);
  }

  /** The descriptors are the disk's bytes from the block behind the superblock's on. */
  lemma MountReadsDescriptors(disk: Bytes, i: Info, start: nat)
    requires MountInfo(disk) == Ok(i) && i.blockSize > 0 && start == (1024 / i.blockSize + 1) * i.blockSize
    ensures DescriptorsFrom(disk, i, start)
  {
    BlockSizeRead(disk, HddRead(disk, 2, 2).value);
    TableRead(disk, i.gdCount, i.blockSize);
    DescriptorsHeld(disk, i, start, (i.gdCount * 32 + 511) / 512 * 512);
  }

  lemma DescriptorsHeld(disk: Bytes, i: Info, start: nat, length: nat)
    requires length == (i.gdCount * 32 + 511) / 512 * 512 && start + length <= |disk|
    requires i.descriptors == disk[start..start + length]
    ensures DescriptorsFrom(disk, i, start)
  {
  }

  /** The descriptors are the disk's bytes from the given position on, to the end of a sector. */
  predicate DescriptorsFrom(disk: Bytes, i: Info, start: nat) {
    var held :=
      && |i.descriptors| % 512 == 0 && i.gdCount * 32 <= |i.descriptors| < i.gdCount * 32 + 512
      && start + |i.descriptors| <= |disk| && i.descriptors == disk[start..start + |i.descriptors|];
    held
  }

  lemma FullGroups(blocks: nat, perGroup: nat, count: nat)
    requires perGroup > 0 && count == GroupCount(blocks, perGroup)
    ensures (count - 1) * perGroup <= blocks < count * perGroup
  {
    assert blocks == blocks / perGroup * perGroup + blocks % perGroup;
    Distribute(count - 1, 1, perGroup);
  }

  /** How mounting ends, up to the descriptor table: an I/O error where the superblock or the table lies
      past the end of the disk, no support without the signature, a trap on groups without blocks. */
  lemma MountInfoIff(disk: Bytes)
    ensures |disk| < 2048 ==> MountInfo(disk) == Err(EIO)
    ensures |disk| >= 2048 ==>
              var signature := LittleEndian(disk[1080..1082]);
              var perGroup := LittleEndian(disk[1056..1060]);
              && (signature != 0xef53 <==> MountInfo(disk) == Err(ENOTSUP))
              && (signature == 0xef53 && perGroup == 0 <==> MountInfo(disk) == Err(DivideFault))
              && (signature == 0xef53 && perGroup > 0 ==>
                    var blockSize := 1024 * TwoTo(LittleEndian(disk[1048..1052]));
                    var gdCount := LittleEndian(disk[1028..1032]) / perGroup + 1;
                    if (1024 / blockSize + 1) * blockSize + (gdCount * 32 + 511) / 512 * 512 <= |disk|
                    then MountInfo(disk).Ok? else MountInfo(disk) == Err(EIO))
  {
    if |disk| >= 2048 {
      var sb := HddRead(disk, 2, 2).value;
      FieldsRead(disk, sb);
      BlockSizeRead(disk, sb);
      if Read32(sb, 32) != 0 {
        TableRead(disk, GroupCount(Read32(sb, 4), Read32(sb, 32)), ShiftedBlock(Read32(sb, 24)));
      }
    }
  }

  // --- inodes ---

  /** Where inode n lies on the disk. */
  function InodeAddress(i: Info, n: nat): nat
    requires 1 <= n && 0 < i.inodesPerGroup
    requires DESCRIPTOR_SIZE * ((n - 1) / i.inodesPerGroup) + 12 <= |i.descriptors|
  {
    var table, r := i.InodeTable((n - 1) / i.inodesPerGroup), (n - 1) % i.inodesPerGroup;
    MulMonotone(0, table, i.blockSize);
    MulMonotone(0, r, i.inodeSize);
    table * i.blockSize + r * i.inodeSize
  }

  /** The sector within the group's table. */
  function SectorInTable(i: Info, n: nat): nat
    requires 1 <= n && 0 < i.inodesPerGroup && 0 < i.inodeSize <= SECTOR
  {
    (n - 1) % i.inodesPerGroup / InodesPerSector(i)
  }

  /** The sector and the offset in it that fetch_inode computes. The offset uses the inode's number in the
      whole volume, not in its group. */
  function FetchSector(i: Info, n: nat): nat
    requires 1 <= n && 0 < i.inodesPerGroup && 0 < i.inodeSize <= SECTOR
    requires DESCRIPTOR_SIZE * ((n - 1) / i.inodesPerGroup) + 12 <= |i.descriptors|
  {
    var table := i.InodeTable((n - 1) / i.inodesPerGroup);
    MulMonotone(0, table, i.blockSize / SECTOR);
    table * (i.blockSize / SECTOR) + SectorInTable(i, n)
  }

  function FetchOffset(i: Info, n: nat): nat
    requires 1 <= n && 0 < i.inodeSize <= SECTOR
  {
    (n - 1) % InodesPerSector(i) * i.inodeSize
  }

  /** The volume-wide and the group-wide number of inode n agree on its place within a sector. */
  predicate SameRemainder(i: Info, n: nat)
    requires 1 <= n && 0 < i.inodesPerGroup && 0 < i.inodeSize <= SECTOR
  {
    (n - 1) % InodesPerSector(i) == (n - 1) % i.inodesPerGroup % InodesPerSector(i)
  }

  /** fetch_inode reads inode n from its place exactly when the volume-wide and the group-wide numbers of
      the inode leave the same remainder by the number of inodes in a sector. */
  lemma FetchExactIff(i: Info, n: nat)
    requires Regular(i) && 1 <= n <= i.totalInodes
    requires DESCRIPTOR_SIZE * ((n - 1) / i.inodesPerGroup) + 12 <= |i.descriptors|
    ensures FetchSector(i, n) * SECTOR + FetchOffset(i, n) == InodeAddress(i, n)
            <==> SameRemainder(i, n)
    ensures FetchOffset(i, n) + i.inodeSize <= SECTOR
  {
    var ips, g := InodesPerSector(i), (n - 1) % i.inodesPerGroup;
    PackedSector(i);
    BlocksAreSectors(i.InodeTable((n - 1) / i.inodesPerGroup), i.blockSize);
    SlotInSector(g, ips, i.inodeSize);
    ScaledSectors(i.InodeTable((n - 1) / i.inodesPerGroup) * (i.blockSize / SECTOR), g / ips);
    SameMultipleIff((n - 1) % ips, g % ips, i.inodeSize);
    MulMonotone((n - 1) % ips + 1, ips, i.inodeSize);
    Distribute((n - 1) % ips, 1, i.inodeSize);
  }

  lemma PackedSector(i: Info)
    requires 0 < i.inodeSize <= SECTOR && SECTOR % i.inodeSize == 0
    ensures InodesPerSector(i) * i.inodeSize == SECTOR && InodesPerSector(i) > 0
  {
  }

  lemma SlotInSector(g: nat, ips: nat, size: nat)
    requires ips > 0 && ips * size == SECTOR
    ensures g * size == g / ips * SECTOR + g % ips * size
  {
    assert g == g / ips * ips + g % ips;
    Distribute(g / ips * ips, g % ips, size);
    assert g / ips * ips * size == g / ips * (ips * size);
  }

  lemma SameMultipleIff(a: nat, b: nat, c: nat)
    requires c > 0
    ensures a * c == b * c <==> a == b
  {
    if a < b {
      Distribute(b - a, a, c);
      MulAtLeast(b - a, c);
    } else if b < a {
      Distribute(a - b, b, c);
      MulAtLeast(a - b, c);
    }
  }

  /** That is so for every inode of a volume with more than one group exactly when the inodes of a group
      fill whole sectors. */
  lemma FetchExactForAllIff(i: Info)
    requires Regular(i) && i.totalInodes > i.inodesPerGroup
    ensures (forall n :: 1 <= n <= i.totalInodes ==> SameRemainder(i, n))
            <==> i.inodesPerGroup % InodesPerSector(i) == 0
  {
    var ips, ipg := InodesPerSector(i), i.inodesPerGroup;
    PackedSector(i);
    if ipg % ips == 0 {
      forall n | 1 <= n <= i.totalInodes
        ensures SameRemainder(i, n)
      {
        RemainderOfRemainder(n - 1, ipg, ips);
      }
    } else {
      DivModUnique(1, ipg, 0);
      assert ipg % ipg % ips == 0;
      assert !SameRemainder(i, ipg + 1);
    }
  }

  /** A small volume on which it is not: with six inodes to a group, inode 7 is the first of the second
      group, and fetch_inode reads the third slot of the sector. */
  lemma FetchGoesWrong()
    ensures var i := Info(12, 12, 6, 6, 128, 0x400, 2, seq(64, _ => 0));
            && Regular(i) && !SameRemainder(i, 7)
            && FetchSector(i, 7) * SECTOR + FetchOffset(i, 7) == InodeAddress(i, 7) + 2 * i.inodeSize
  {
    var table: Bytes := seq(64, _ => 0);
    LittleEndianOfFour(table[40..44]);
  }

  lemma RemainderOfRemainder(x: nat, d: nat, e: nat)
    requires d > 0 && e > 0 && d % e == 0
    ensures x % d % e == x % e
  {
    var q, r := x / d, x % d;
    var k := d / e;
    assert d == k * e;
    assert x == q * d + r && r == r / e * e + r % e;
    assert q * (k * e) == q * k * e;
    Distribute(q * k, r / e, e);
    DivModUnique(q * k + r / e, e, r % e);
  }

  /** The group's part of the disk for inodes: from where its table starts to where it ends. */
  function TableStart(i: Info, group: nat): nat
    requires DESCRIPTOR_SIZE * group + 12 <= |i.descriptors|
  {
    i.InodeTable(group) * i.blockSize
  }

  predicate TablesApart(i: Info, g: nat, h: nat)
    requires DESCRIPTOR_SIZE * g + 12 <= |i.descriptors| && DESCRIPTOR_SIZE * h + 12 <= |i.descriptors|
  {
    || TableStart(i, g) + i.inodesPerGroup * i.inodeSize <= TableStart(i, h)
    || TableStart(i, h) + i.inodesPerGroup * i.inodeSize <= TableStart(i, g)
  }

  /** No two groups share space for their inodes. */
  predicate AllTablesApart(i: Info)
    requires Regular(i)
  {
    forall g, h :: 0 <= g < h < i.gdCount ==> TablesApart(i, g, h)
  }

  /** A slot lies within its group's table. */
  lemma SlotInTable(i: Info, n: nat)
    requires Regular(i) && 1 <= n
    requires DESCRIPTOR_SIZE * ((n - 1) / i.inodesPerGroup) + 12 <= |i.descriptors|
    ensures TableStart(i, (n - 1) / i.inodesPerGroup) <= InodeAddress(i, n)
    ensures InodeAddress(i, n) + i.inodeSize
            <= TableStart(i, (n - 1) / i.inodesPerGroup) + i.inodesPerGroup * i.inodeSize
  {
    var r := (n - 1) % i.inodesPerGroup;
    MulMonotone(r + 1, i.inodesPerGroup, i.inodeSize);
    Distribute(r, 1, i.inodeSize);
  }

  predicate SlotsApart(i: Info, m: nat, n: nat)
    requires Regular(i) && 1 <= m <= i.totalInodes && 1 <= n <= i.totalInodes
  {
    DescriptorInTable(i, m);
    DescriptorInTable(i, n);
    || InodeAddress(i, m) + i.inodeSize <= InodeAddress(i, n)
    || InodeAddress(i, n) + i.inodeSize <= InodeAddress(i, m)
  }

  lemma SlotsOfOneGroup(i: Info, m: nat, n: nat)
    requires Regular(i) && 1 <= m < n <= i.totalInodes && (m - 1) / i.inodesPerGroup == (n - 1) / i.inodesPerGroup
    ensures SlotsApart(i, m, n)
  {
    DescriptorInTable(i, m);
    DescriptorInTable(i, n);
    SlotsInOrder((m - 1) / i.inodesPerGroup, m - 1, n - 1, i.inodesPerGroup, i.inodeSize);
  }

  lemma SlotsOfTwoGroups(i: Info, m: nat, n: nat)
    requires Regular(i) && AllTablesApart(i) && 1 <= m < n <= i.totalInodes
    requires (m - 1) / i.inodesPerGroup != (n - 1) / i.inodesPerGroup
    ensures SlotsApart(i, m, n)
  {
    DescriptorInTable(i, m);
    DescriptorInTable(i, n);
    GroupInTableIff(i, n);
    GroupsInOrder(m - 1, n - 1, i.inodesPerGroup);
    assert TablesApart(i, (m - 1) / i.inodesPerGroup, (n - 1) / i.inodesPerGroup);
    SlotInTable(i, m);
    SlotInTable(i, n);
  }

  /** Distinct inodes have disjoint slots, within a group and across groups. */
  lemma SlotsDisjoint(i: Info, m: nat, n: nat)
    requires Regular(i) && AllTablesApart(i) && 1 <= m < n <= i.totalInodes
    ensures SlotsApart(i, m, n)
  {
    if (m - 1) / i.inodesPerGroup == (n - 1) / i.inodesPerGroup {
      SlotsOfOneGroup(i, m, n);
    } else {
      SlotsOfTwoGroups(i, m, n);
    }
  }

  lemma GroupsInOrder(x: nat, y: nat, d: nat)
    requires d > 0 && x <= y
    ensures x / d <= y / d
  {
    if x / d > y / d {
      MulMonotone(y / d + 1, x / d, d);
      Distribute(y / d, 1, d);
    }
  }

  lemma SlotsInOrder(q: nat, x: nat, y: nat, d: nat, size: nat)
    requires d > 0 && x < y && x / d == y / d == q
    ensures x % d * size + size <= y % d * size
    ensures y % d * size + size <= d * size
  {
    assert x == q * d + x % d && y == q * d + y % d;
    MultiplesInOrder(x % d, y % d, size);
    MultiplesInOrder(y % d, d, size);
  }

  lemma MultiplesInOrder(a: nat, b: nat, size: nat)
    requires a < b
    ensures a * size + size <= b * size
  {
    MulMonotone(a + 1, b, size);
    Distribute(a, 1, size);
  }

  /** The bytes fetch_inode delivers for inode n, or its error. */
  function InodeBytes(disk: Bytes, i: Info, n: nat): (r: Result<Bytes>)
    requires Regular(i) && 1 <= n
    ensures r.Ok? ==> |r.value| == i.inodeSize
  {
    if n > i.totalInodes then Err(ENOENT)
    else
      DescriptorInTable(i, n);
      match HddRead(disk, 1, FetchSector(i, n))
      case Err(e) => Err(e)
      case Ok(buffer) =>
        OffsetInSector(i, n);
        Ok(buffer[FetchOffset(i, n)..FetchOffset(i, n) + i.inodeSize])
  }

  lemma DescriptorInTable(i: Info, n: nat)
    requires Regular(i) && 1 <= n <= i.totalInodes
    ensures DESCRIPTOR_SIZE * ((n - 1) / i.inodesPerGroup) + DESCRIPTOR_SIZE <= |i.descriptors|
  {
    GroupInTableIff(i, n);
  }

  lemma OffsetInSector(i: Info, n: nat)
    requires Regular(i) && 1 <= n
    ensures FetchOffset(i, n) + i.inodeSize <= SECTOR
  {
    PackedSector(i);
    MulMonotone((n - 1) % InodesPerSector(i) + 1, InodesPerSector(i), i.inodeSize);
    Distribute((n - 1) % InodesPerSector(i), 1, i.inodeSize);
  }

  /** That place, from the bytes: the block that the group's descriptor has in its third word, and from
      there the number within the group. */
  lemma InodeBelongsAt(i: Info, n: nat, d: nat)
    requires 1 <= n && 0 < i.inodesPerGroup && d == 32 * ((n - 1) / i.inodesPerGroup)
    requires d + 32 <= |i.descriptors|
    ensures InodeAddress(i, n)
            == LittleEndian(i.descriptors[d + 8..d + 12]) * i.blockSize + (n - 1) % i.inodesPerGroup * i.inodeSize
  {
  }

  /** The sector read is the one in which the inode begins. */
  lemma SectorOfInode(i: Info, n: nat)
    requires Regular(i) && 1 <= n <= i.totalInodes
    requires DESCRIPTOR_SIZE * ((n - 1) / i.inodesPerGroup) + 12 <= |i.descriptors|
    ensures FetchSector(i, n) == InodeAddress(i, n) / SECTOR
  {
    var ips, g := InodesPerSector(i), (n - 1) % i.inodesPerGroup;
    PackedSector(i);
    BlocksAreSectors(i.InodeTable((n - 1) / i.inodesPerGroup), i.blockSize);
    SlotInSector(g, ips, i.inodeSize);
    ScaledSectors(i.InodeTable((n - 1) / i.inodesPerGroup) * (i.blockSize / SECTOR), g / ips);
    MultiplesInOrder(g % ips, ips, i.inodeSize);
    MulMonotone(0, g % ips, i.inodeSize);
    DivModUnique(FetchSector(i, n), SECTOR, g % ips * i.inodeSize);
  }

  /** How fetch_inode ends: no entry above the volume's inodes, otherwise the inode exactly if the sector
      in which it begins lies on the disk, and an I/O error if it does not. */
  lemma InodeBytesIff(disk: Bytes, i: Info, n: nat)
    requires Regular(i) && 1 <= n
    ensures InodeBytes(disk, i, n) == Err(ENOENT) <==> n > i.totalInodes
    ensures n <= i.totalInodes ==> DESCRIPTOR_SIZE * ((n - 1) / i.inodesPerGroup) + DESCRIPTOR_SIZE <= |i.descriptors|
    ensures n <= i.totalInodes ==>
              if (InodeAddress(i, n) / 512 + 1) * 512 <= |disk| then InodeBytes(disk, i, n).Ok?
              else InodeBytes(disk, i, n) == Err(EIO)
  {
    if n <= i.totalInodes {
      DescriptorInTable(i, n);
      SectorOfInode(i, n);
    }
  }

  /** Where the remainders agree, these are the bytes where the inode belongs. */
  lemma InodeBytesAreInPlace(disk: Bytes, i: Info, n: nat, d: nat, a: nat)
    requires Regular(i) && 1 <= n <= i.totalInodes && SameRemainder(i, n)
    requires InodeBytes(disk, i, n).Ok? && d == 32 * ((n - 1) / i.inodesPerGroup)
    ensures d + 32 <= |i.descriptors|
    ensures a == LittleEndian(i.descriptors[d + 8..d + 12]) * i.blockSize + (n - 1) % i.inodesPerGroup * i.inodeSize
            ==> a + i.inodeSize <= |disk| && InodeBytes(disk, i, n).value == disk[a..a + i.inodeSize]
  {
    DescriptorInTable(i, n);
    FetchExactIff(i, n);
    InodeBelongsAt(i, n, d);
    var lba, o := FetchSector(i, n), FetchOffset(i, n);
    SliceOfSlice(disk, lba * SECTOR, (lba + 1) * SECTOR, o, o + i.inodeSize);
  }

  /** fetch_inode: one sector is read and the inode copied out of it into the caller's struct. */
  method FetchInode(disk: Bytes, i: Info, n: nat, inode: array<Byte>) returns (r: Result<nat>)
    requires Regular(i) && 1 <= n && i.inodeSize <= inode.Length
    modifies inode
    ensures match InodeBytes(disk, i, n)
            case Err(e) => r == Err(e) && inode[..] == old(inode[..])
            case Ok(bytes) => r == Ok(0) && inode[..] == bytes + old(inode[i.inodeSize..])
    ensures r == Err(ENOENT) <==> n > i.totalInodes
  {
    if n > i.totalInodes {
      return Err(ENOENT);
    }
    DescriptorInTable(i, n);
    OffsetInSector(i, n);
    var read := HddRead(disk, 1, FetchSector(i, n));
    if read.Err? {
      return Err(read.error);
    }
    var offset := FetchOffset(i, n);
    MemCpy(inode, read.value[offset..offset + i.inodeSize]);
    return Ok(0);
  }

  /** i_mode & 0xf000 */
  function TypeBits(inode: Bytes): nat
    requires |inode| >= INODE_SIZE
  {
    Read16(inode, 0) / 0x1000 * 0x1000
  }

  /** i_block[0] */
  function FirstBlock(inode: Bytes): nat
    requires |inode| >= INODE_SIZE
  {
    Read32(inode, 40)
  }
}
