/**
 Reading a file on a FAT32 volume: FatReadFile of FAT32/src/fat_operations.c over the cluster
 arithmetic of FAT32/src/fat_utils.c. The chain encoding is that of "FAT: General Overview of On-Disk
 Format", version 1.03, section "FAT Data Structure".
 */
module Fat {
  import opened Alignment
  import opened Basics
  import opened MachineWords
  import opened Products

  const FAT_ENTRY_BYTES: nat := 4
  const FAT32_CLUSTER_VALUES: nat := 0x1000_0000 // FAT32_CLUSTER_MASK + 1
  const FAT32_BAD_CLUSTER: nat := 0x0FFF_FFF7

  datatype Status = DeviceClusterInvalid | DeviceFault

  datatype Result<T> = Ok(value: T) | Err(status: Status)

  /**
   FAT_DATA and the device behind it: `content` is what the device holds, `faulty(offset, count)` says
   which transfers fail.
   */
  datatype Volume = Volume(
    CountOfClusters: nat, ReservedSectors: nat, FirstDataSector: nat, SectorsPerCluster: Positive,
    BytesPerSector: Positive, content: nat -> Byte, faulty: (nat, nat) -> bool)
  {
    /** The FAT lies between the reserved sectors and the data; the volume is addressable in a QWORD. */
    predicate Valid() {
      && CountOfClusters + 1 < DWORD_VALUES && ReservedSectors < DWORD_VALUES
      && FirstDataSector < DWORD_VALUES
      && SectorsPerCluster < DWORD_VALUES
      && BytesPerSector < DWORD_VALUES && BytesPerSector % FAT_ENTRY_BYTES == 0
      && Times(ReservedSectors, BytesPerSector) + FAT_ENTRY_BYTES * (CountOfClusters + 2)
         <= Times(FirstDataSector, BytesPerSector)
      && Times(DataEnd(), BytesPerSector) <= QWORD_VALUES
    }

    function DataEnd(): nat {
      FirstDataSector + Times(CountOfClusters, SectorsPerCluster)
    }

    function ByteAt(offset: nat): Byte {
      content(offset)
    }

    predicate Faulty(offset: nat, count: nat) {
      faulty(offset, count)
    }

    /** IoReadDevice: the whole transfer, or a failure. */
    function Read(offset: nat, count: nat): Result<seq<Byte>> {
      if Faulty(offset, count) then Err(DeviceFault) else Ok(seq<Byte>(count, i requires 0 <= i => ByteAt(offset + i)))
    }
  }

  // ---------------------------------------------------------------------------------------------
  // Clusters and sectors
  // ---------------------------------------------------------------------------------------------

  /** Arithmetic on a QWORD. */
  function Wrap(x: int): (r: nat)
    ensures r < QWORD_VALUES
  {
    x % QWORD_VALUES
  }

  predicate ValidCluster(v: Volume, cluster: nat) {
    2 <= cluster <= (v.CountOfClusters + 1) % DWORD_VALUES
  }

  function FirstSectorOfCluster(v: Volume, cluster: nat): Result<nat> {
    if !ValidCluster(v, cluster) then Err(DeviceClusterInvalid)
    else Ok(Wrap(Wrap(Times(cluster - 2, v.SectorsPerCluster)) + v.FirstDataSector))
  }

  function ClusterNumber(sectorInRegion: int, sectorsPerCluster: Positive): nat
    requires sectorsPerCluster > 0
  {
    Wrap(Quotient(Wrap(sectorInRegion), sectorsPerCluster) + 2)
  }

  function ClusterOfSector(v: Volume, sector: nat): Result<nat> {
    var cluster := ClusterNumber(sector - v.FirstDataSector, v.SectorsPerCluster);
    if ValidCluster(v, cluster) then Ok(cluster) else Err(DeviceClusterInvalid)
  }

  lemma WrapsToItself(x: int)
    requires 0 <= x < QWORD_VALUES
    ensures Wrap(x) == x
  {
  }

  lemma WrapsAround(x: int)
    requires -QWORD_VALUES <= x < 0
    ensures Wrap(x) == x + QWORD_VALUES
  {
  }

  lemma DwordsBelow(d: nat)
    requires d < DWORD_VALUES
    ensures Times(DWORD_VALUES, d) <= QWORD_VALUES - DWORD_VALUES
  {
  }

  lemma ClusterNumberExact(x: int, spc: Positive, count: nat)
    requires spc < DWORD_VALUES && count + 1 < DWORD_VALUES && -DWORD_VALUES < x < QWORD_VALUES
    ensures 2 <= ClusterNumber(x, spc) <= count + 1 <==> 0 <= x < Times(count, spc)
  {
    hide Times;
    hide Quotient;
    hide Wrap;
    var a: nat := if x < 0 then x + QWORD_VALUES else x;
    assert Wrap(x) == a by {
      if x < 0 {
        WrapsAround(x);
      } else {
        WrapsToItself(x);
      }
    }
    var q := Quotient(a, spc);
    QuotientBelow(a, count, spc);
    QuotientIsSmaller(a, spc);
    assert x < 0 ==> q >= DWORD_VALUES by {
      DwordsBelow(spc);
      QuotientBelow(a, DWORD_VALUES, spc);
    }
    if q + 2 < QWORD_VALUES {
      WrapsToItself(q + 2);
    } else {
      BothSubtracted(q + 2);
    }
  }

  /** A cluster is found exactly for the sectors of the data region, in spite of 64-bit underflow below it. */
  lemma ClusterOfSectorExact(v: Volume, sector: nat)
    requires v.Valid() && sector < QWORD_VALUES
    ensures ClusterOfSector(v, sector).Ok? <==> v.FirstDataSector <= sector < v.DataEnd()
  {
    hide ClusterNumber;
    ClusterNumberExact(sector - v.FirstDataSector, v.SectorsPerCluster, v.CountOfClusters);
  }

  lemma BothSubtracted(x: nat)
    requires QWORD_VALUES <= x < 2 * QWORD_VALUES
    ensures Wrap(x) == x - QWORD_VALUES
  {
  }

  /** A valid cluster's sectors are in the data region, and its first sector is computed without wrapping. */
  lemma FirstSectorExact(v: Volume, cluster: nat)
    requires v.Valid() && ValidCluster(v, cluster)
    ensures FirstSectorOfCluster(v, cluster) == Ok(v.FirstDataSector + Times(cluster - 2, v.SectorsPerCluster))
    ensures v.FirstDataSector + Times(cluster - 2, v.SectorsPerCluster) + v.SectorsPerCluster <= v.DataEnd()
    ensures v.DataEnd() <= QWORD_VALUES
  {
    hide Times;
    hide Wrap;
    var spc, count := v.SectorsPerCluster, v.CountOfClusters;
    var offset := Times(cluster - 2, spc);
    TimesSum(cluster - 2, 1, spc);
    TimesOne(spc);
    TimesGrows(cluster - 1, count, spc);
    DataEndFits(v);
    WrapsToItself(offset);
    WrapsToItself(offset + v.FirstDataSector);
  }

  /** Other cluster numbers than those of the volume, which start at 2, are refused. */
  lemma NoSuchCluster(v: Volume, cluster: nat)
    requires v.Valid()
    ensures FirstSectorOfCluster(v, cluster) == Err(DeviceClusterInvalid)
            <==> cluster < 2 || cluster > v.CountOfClusters + 1
  {
  }

  /** Other sectors than those of the data region are refused. */
  lemma NoSuchSector(v: Volume, sector: nat)
    requires v.Valid() && sector < QWORD_VALUES
    ensures ClusterOfSector(v, sector) == Err(DeviceClusterInvalid)
            <==> sector < v.FirstDataSector || sector >= v.DataEnd()
  {
    ClusterOfSectorExact(v, sector);
  }

  lemma DataEndFits(v: Volume)
    requires v.Valid()
    ensures v.DataEnd() <= QWORD_VALUES
  {
    hide Times;
    TimesGrows(1, v.BytesPerSector, v.DataEnd());
    TimesOne(v.DataEnd());
  }

  /** Each sector of a cluster leads back to it. */
  lemma ClusterOfItsSectors(v: Volume, cluster: nat, k: nat)
    requires v.Valid() && ValidCluster(v, cluster) && k < v.SectorsPerCluster
    ensures ClusterOfSector(v, FirstSectorOfCluster(v, cluster).value + k) == Ok(cluster)
  {
    hide Times;
    hide Quotient;
    hide Remainder;
    hide Wrap;
    FirstSectorExact(v, cluster);
    DivideExactly(cluster - 2, k, v.SectorsPerCluster);
    DataEndFits(v);
    WrapsToItself(Times(cluster - 2, v.SectorsPerCluster) + k);
    WrapsToItself(cluster);
  }

  /** And each sector of the data region lies in the cluster that is found for it. */
  lemma SectorLiesInItsCluster(v: Volume, sector: nat)
    requires v.Valid() && v.FirstDataSector <= sector < v.DataEnd()
    ensures
      var cluster := ClusterOfSector(v, sector);
      && cluster.Ok? && FirstSectorOfCluster(v, cluster.value).Ok?
      && var first := FirstSectorOfCluster(v, cluster.value).value;
         first <= sector < first + v.SectorsPerCluster
  {
    hide Times;
    hide Quotient;
    hide Remainder;
    hide Wrap;
    DataEndFits(v);
    ClusterOfSectorExact(v, sector);
    var x, spc := sector - v.FirstDataSector, v.SectorsPerCluster;
    QuotientBelow(x, v.CountOfClusters, spc);
    WrapsToItself(x);
    WrapsToItself(Quotient(x, spc) + 2);
    FirstSectorExact(v, Quotient(x, spc) + 2);
    Division(x, spc);
  }

  // ---------------------------------------------------------------------------------------------
  // The cluster chain
  // ---------------------------------------------------------------------------------------------

  /** Where the FAT entry of a cluster is on the volume. */
  function EntryOffset(v: Volume, cluster: nat): nat {
    Times(v.ReservedSectors, v.BytesPerSector) + FAT_ENTRY_BYTES * cluster
  }

  function LittleEndian(b0: nat, b1: nat, b2: nat, b3: nat): nat {
    b0 + 0x100 * b1 + 0x1_0000 * b2 + 0x100_0000 * b3
  }

  /** The little-endian DWORD at a byte offset. */
  function DwordAt(v: Volume, offset: nat): nat {
    LittleEndian(v.ByteAt(offset), v.ByteAt(offset + 1), v.ByteAt(offset + 2), v.ByteAt(offset + 3))
  }

  /** The four bytes from an offset on are those of n, the lowest first. */
  predicate HoldsDword(v: Volume, offset: nat, n: nat) {
    && n < DWORD_VALUES
    && v.ByteAt(offset) == n % 0x100
    && v.ByteAt(offset + 1) == n / 0x100 % 0x100
    && v.ByteAt(offset + 2) == n / 0x1_0000 % 0x100
    && v.ByteAt(offset + 3) == n / 0x100_0000
  }

  lemma DwordIsHeld(v: Volume, offset: nat, n: nat)
    ensures HoldsDword(v, offset, n) <==> n == DwordAt(v, offset)
  {
    var d := DwordAt(v, offset);
    BytesOf(v.ByteAt(offset), v.ByteAt(offset + 1), v.ByteAt(offset + 2), v.ByteAt(offset + 3));
    if HoldsDword(v, offset, n) {
      BytesMake(n);
    }
  }

  lemma BytesOf(b0: Byte, b1: Byte, b2: Byte, b3: Byte)
    ensures
      var d := LittleEndian(b0, b1, b2, b3);
      d < DWORD_VALUES && d % 0x100 == b0 && d / 0x100 % 0x100 == b1 && d / 0x1_0000 % 0x100 == b2
      && d / 0x100_0000 == b3
  {
    var d := LittleEndian(b0, b1, b2, b3);
    assert d / 0x100 == b1 + 0x100 * (b2 + 0x100 * b3);
    assert d / 0x1_0000 == b2 + 0x100 * b3;
  }

  lemma BytesMake(n: nat)
    ensures LittleEndian(n % 0x100, n / 0x100 % 0x100, n / 0x1_0000 % 0x100, n / 0x100_0000) == n
  {
    var m := n / 0x100;
    assert n / 0x1_0000 == m / 0x100 && n / 0x100_0000 == m / 0x100 / 0x100;
  }

  /** The sector that is fetched to read a cluster's FAT entry. */
  function FatSector(v: Volume, cluster: nat): nat {
    Wrap(v.ReservedSectors + Quotient(Wrap(FAT_ENTRY_BYTES * cluster), v.BytesPerSector))
  }

  /** Where that sector is on the device, and where the entry is in it. */
  function FatSectorOffset(v: Volume, cluster: nat): nat {
    Wrap(Times(FatSector(v, cluster), v.BytesPerSector))
  }

  function OffsetInSector(v: Volume, cluster: nat): nat {
    Remainder(Wrap(FAT_ENTRY_BYTES * cluster), v.BytesPerSector)
  }

  /** No FAT entry straddles two sectors exactly when the sector size is a multiple of the entry size. */
  lemma NoEntryStraddles(bps: Positive)
    ensures bps % FAT_ENTRY_BYTES == 0
            <==> forall cluster: nat :: EntryFits(bps, cluster)
  {
    if bps % FAT_ENTRY_BYTES == 0 {
      forall cluster: nat
        ensures EntryFits(bps, cluster)
      {
        EntryStaysInside(bps, cluster);
      }
    } else {
      var cluster: nat := (bps - 1) / FAT_ENTRY_BYTES;
      DivideExactly(0, FAT_ENTRY_BYTES * cluster, bps);
      assert !EntryFits(bps, cluster);
    }
  }

  predicate EntryFits(bps: Positive, cluster: nat) {
    Remainder(FAT_ENTRY_BYTES * cluster, bps) + FAT_ENTRY_BYTES <= bps
  }

  lemma EntryStaysInside(bps: Positive, cluster: nat)
    requires bps % FAT_ENTRY_BYTES == 0
    ensures EntryFits(bps, cluster)
  {
    hide Times;
    hide Quotient;
    hide Remainder;
    var a, k := FAT_ENTRY_BYTES * cluster, bps / FAT_ENTRY_BYTES;
    var q := Quotient(a, bps);
    Division(a, bps);
    assert Times(q, bps) == FAT_ENTRY_BYTES * Times(q, k) by {
      TimesSum4(q, k);
    }
  }

  lemma TimesSum4(q: nat, k: nat)
    ensures Times(q, FAT_ENTRY_BYTES * k) == FAT_ENTRY_BYTES * Times(q, k)
  {
    assert q * (FAT_ENTRY_BYTES * k) == FAT_ENTRY_BYTES * (q * k);
  }

  /** The FAT entry of a cluster: the DWORD in the FAT, when its sector can be read. */
  function Entry(v: Volume, cluster: nat): Result<nat> {
    if v.Faulty(FatSectorOffset(v, cluster), v.BytesPerSector) then Err(DeviceFault)
    else Ok(DwordAt(v, FatSectorOffset(v, cluster) + OffsetInSector(v, cluster)))
  }

  /** The first sector of the next cluster; 0 at the end of the chain. */
  function NextSector(v: Volume, sector: nat): Result<nat> {
    match ClusterOfSector(v, sector)
    case Err(status) => Err(status)
    case Ok(cluster) =>
      match Entry(v, cluster)
      case Err(status) => Err(status)
      case Ok(entry) =>
        var next := entry % FAT32_CLUSTER_VALUES;
        if next >= FAT32_BAD_CLUSTER || next == 0 then Ok(0) else FirstSectorOfCluster(v, next)
  }

  /** The value that follows from k hops along the chain, starting at sector `base`. */
  function Walk(v: Volume, base: nat, k: nat): Result<nat> {
    if k == 0 then Ok(base)
    else
      match Walk(v, base, k - 1)
      case Err(status) => Err(status)
      case Ok(sector) => NextSector(v, sector)
  }

  /** The entry of a cluster of the volume is where the FAT has it; nothing wraps on the way there. */
  lemma EntryInItsSector(v: Volume, cluster: nat)
    requires v.Valid() && ValidCluster(v, cluster)
    ensures FatSectorOffset(v, cluster) + OffsetInSector(v, cluster) == EntryOffset(v, cluster)
  {
    hide Times;
    hide Quotient;
    hide Remainder;
    hide Wrap;
    var bps, a := v.BytesPerSector, FAT_ENTRY_BYTES * cluster;
    WrapsToItself(a);
    TimesSum(v.ReservedSectors, Quotient(a, bps), bps);
    Division(a, bps);
    QuotientIsSmaller(a, bps);
    WrapsToItself(v.ReservedSectors + Quotient(a, bps));
    TimesGrows(v.FirstDataSector, v.DataEnd(), bps);
    WrapsToItself(Times(v.ReservedSectors + Quotient(a, bps), bps));
  }

  /** No entry that is fetched straddles two sectors, whatever the cluster number. */
  lemma FetchedEntryFits(v: Volume, cluster: nat)
    requires v.BytesPerSector % FAT_ENTRY_BYTES == 0
    ensures OffsetInSector(v, cluster) + FAT_ENTRY_BYTES <= v.BytesPerSector
  {
    hide Remainder;
    var wrapped := WrappedEntry(cluster);
    EntryStaysInside(v.BytesPerSector, wrapped);
  }

  lemma WrappedEntry(cluster: nat) returns (wrapped: nat)
    ensures Wrap(FAT_ENTRY_BYTES * cluster) == FAT_ENTRY_BYTES * wrapped
  {
    wrapped := cluster % (QWORD_VALUES / FAT_ENTRY_BYTES);
    var q := cluster / (QWORD_VALUES / FAT_ENTRY_BYTES);
    assert FAT_ENTRY_BYTES * cluster == QWORD_VALUES * q + FAT_ENTRY_BYTES * wrapped;
  }

  lemma EntryIsHeld(v: Volume, cluster: nat)
    ensures Entry(v, cluster).Ok?
            ==> HoldsDword(v, FatSectorOffset(v, cluster) + OffsetInSector(v, cluster), Entry(v, cluster).value)
  {
    hide HoldsDword;
    hide DwordAt;
    hide FatSectorOffset;
    hide OffsetInSector;
    var offset := FatSectorOffset(v, cluster) + OffsetInSector(v, cluster);
    DwordIsHeld(v, offset, DwordAt(v, offset));
  }

  method NextClusterInChain(v: Volume, cluster: nat) returns (r: Result<nat>)
    requires v.BytesPerSector % FAT_ENTRY_BYTES == 0
    ensures r == Entry(v, cluster)
    ensures r.Ok? ==> HoldsDword(v, FatSectorOffset(v, cluster) + OffsetInSector(v, cluster), r.value)
  {
    hide HoldsDword;
    hide Wrap;
    hide Quotient;
    hide Remainder;
    hide Times;
    EntryIsHeld(v, cluster);
    FetchedEntryFits(v, cluster);
    var sectorNumber := Wrap(v.ReservedSectors + Quotient(Wrap(FAT_ENTRY_BYTES * cluster), v.BytesPerSector));
    var offsetInSector := Remainder(Wrap(FAT_ENTRY_BYTES * cluster), v.BytesPerSector);
    var offset := Wrap(Times(sectorNumber, v.BytesPerSector));
    var sector := v.Read(offset, v.BytesPerSector);
    if sector.Err? {
      return Err(sector.status);
    }
    var bytes := sector.value;
    r := Ok(LittleEndian(bytes[offsetInSector], bytes[offsetInSector + 1],
                         bytes[offsetInSector + 2], bytes[offsetInSector + 3]));
  }

  method NextSectorInClusterChain(v: Volume, currentSector: nat) returns (r: Result<nat>)
    requires v.Valid() && currentSector < QWORD_VALUES
    ensures r == NextSector(v, currentSector)
    ensures r.Ok? ==> r.value < QWORD_VALUES
  {
    var cluster := ClusterOfSector(v, currentSector);
    if cluster.Err? {
      return Err(cluster.status);
    }
    var entry := NextClusterInChain(v, cluster.value);
    if entry.Err? {
      return entry;
    }
    var nextCluster := entry.value % FAT32_CLUSTER_VALUES;
    if nextCluster >= FAT32_BAD_CLUSTER || nextCluster == 0 {
      return Ok(0);
    }
    r := FirstSectorOfCluster(v, nextCluster);
  }

  // ---------------------------------------------------------------------------------------------
  // The flattened file
  // ---------------------------------------------------------------------------------------------

  /** `base` is the first sector of a cluster of the volume: where a file starts. */
  ghost predicate FileStart(v: Volume, base: nat) {
    exists cluster: nat :: StartsCluster(v, base, cluster)
  }

  predicate StartsCluster(v: Volume, sector: nat, cluster: nat) {
    ValidCluster(v, cluster) && FirstSectorOfCluster(v, cluster) == Ok(sector)
  }

  function ClusterBytes(v: Volume): Positive {
    TimesPositive(v.SectorsPerCluster, v.BytesPerSector);
    Times(v.SectorsPerCluster, v.BytesPerSector)
  }

  predicate HasCluster(v: Volume, base: nat, k: nat) {
    Walk(v, base, k).Ok? && Walk(v, base, k).value != 0
  }

  predicate ChainEnds(v: Volume, base: nat, k: nat) {
    Walk(v, base, k) == Ok(0)
  }

  /** Where byte `position` of the file is on the volume. */
  function FileByte(v: Volume, base: nat, position: nat): Result<nat> {
    match Walk(v, base, Quotient(position, ClusterBytes(v)))
    case Err(status) => Err(status)
    case Ok(sector) => Ok(Times(sector, v.BytesPerSector) + Remainder(position, ClusterBytes(v)))
  }

  lemma {:induction false} WalkStaysOnClusters(v: Volume, base: nat, k: nat)
    requires v.Valid() && FileStart(v, base) && HasCluster(v, base, k)
    ensures FileStart(v, Walk(v, base, k).value)
  {
    if k > 0 {
      var sector := Walk(v, base, k - 1).value;
      var next := Entry(v, ClusterOfSector(v, sector).value).value % FAT32_CLUSTER_VALUES;
      assert StartsCluster(v, Walk(v, base, k).value, next);
    }
  }

  lemma SameClusterSameNext(v: Volume, a: nat, b: nat)
    requires ClusterOfSector(v, a) == ClusterOfSector(v, b)
    ensures NextSector(v, a) == NextSector(v, b)
  {
    hide ClusterOfSector;
    hide Entry;
    hide FirstSectorOfCluster;
  }

  lemma SectorsOfCluster(v: Volume, sector: nat, k: nat)
    requires v.Valid() && FileStart(v, sector) && k < v.SectorsPerCluster
    ensures ClusterOfSector(v, sector + k) == ClusterOfSector(v, sector)
    ensures sector + v.SectorsPerCluster <= v.DataEnd() <= QWORD_VALUES
  {
    hide Times;
    hide Wrap;
    hide ClusterOfSector;
    hide FirstSectorOfCluster;
    hide ValidCluster;
    hide Volume.Valid;
    var cluster: nat :| StartsCluster(v, sector, cluster);
    ClusterOfItsSectors(v, cluster, k);
    ClusterOfItsSectors(v, cluster, 0);
    FirstSectorExact(v, cluster);
  }

  /** The next cluster can be looked up from any sector of the current one. */
  lemma SameNextSector(v: Volume, sector: nat, k: nat)
    requires v.Valid() && FileStart(v, sector) && k < v.SectorsPerCluster
    ensures NextSector(v, sector + k) == NextSector(v, sector)
    ensures sector + v.SectorsPerCluster <= v.DataEnd() <= QWORD_VALUES
    ensures Times(sector + k, v.BytesPerSector) < QWORD_VALUES
  {
    hide Times;
    hide NextSector;
    hide ClusterOfSector;
    hide FileStart;
    SectorsOfCluster(v, sector, k);
    SameClusterSameNext(v, sector + k, sector);
    TimesGrows(sector + k + 1, v.DataEnd(), v.BytesPerSector);
    TimesLess(sector + k, sector + k + 1, v.BytesPerSector);
  }

  /**
   The ASSERT on the base sector accepts the start of a cluster exactly when the data region is aligned,
   for the powers of two that FAT prescribes for the number of sectors in a cluster.
   */
  lemma BaseIsAligned(v: Volume, base: nat)
    requires v.Valid() && FileStart(v, base) && PowerOfTwo(v.SectorsPerCluster)
    ensures IsAligned(base, v.SectorsPerCluster) <==> IsAligned(v.FirstDataSector, v.SectorsPerCluster)
  {
    hide Times;
    hide Quotient;
    hide Remainder;
    hide Wrap;
    hide IsAligned;
    hide PowerOfTwo;
    var cluster: nat :| StartsCluster(v, base, cluster);
    FirstSectorExact(v, cluster);
    SameRemainder(v.FirstDataSector, cluster - 2, v.SectorsPerCluster);
    MaskIsRemainder(base, v.SectorsPerCluster);
    MaskIsRemainder(v.FirstDataSector, v.SectorsPerCluster);
  }

  // ---------------------------------------------------------------------------------------------
  // What FatReadFile transfers
  // ---------------------------------------------------------------------------------------------

  /** The first sector of the k-th cluster of a chain (0 when there is none). */
  function StartOf(v: Volume, base: nat, k: nat): nat {
    match Walk(v, base, k)
    case Ok(sector) => sector
    case Err(_) => 0
  }

  /** The sector from which a read starts. */
  function ReadStart(v: Volume, base: nat, offset: nat): (sector: nat)
    ensures sector < QWORD_VALUES
  {
    Wrap(StartOf(v, base, Quotient(offset, v.SectorsPerCluster)) + Remainder(offset, v.SectorsPerCluster))
  }

  /** The sector from which the c-th transfer of a read reads. */
  function TransferSector(v: Volume, base: nat, offset: nat, c: nat): nat {
    StartOf(v, ReadStart(v, base, offset), c)
  }

  function TransferOffset(v: Volume, base: nat, offset: nat, c: nat): nat {
    Wrap(Times(TransferSector(v, base, offset, c), v.BytesPerSector))
  }

  /** There is a c-th transfer: the chain has a cluster at the offset, and c more behind it. */
  predicate Reaches(v: Volume, base: nat, offset: nat, c: nat) {
    && HasCluster(v, base, Quotient(offset, v.SectorsPerCluster))
    && (c > 0 ==> HasCluster(v, ReadStart(v, base, offset), c))
  }

  /** How many sectors the c-th transfer of a read of `count` sectors moves. */
  function TransferSize(v: Volume, count: nat, c: nat): nat {
    if Times(c, v.SectorsPerCluster) < count then Min(v.SectorsPerCluster, count - Times(c, v.SectorsPerCluster))
    else 0
  }

  /** The c-th transfer of a read of `count` sectors can be done. */
  predicate Transfers(v: Volume, base: nat, offset: nat, count: nat, c: nat) {
    && Reaches(v, base, offset, c)
    && !v.Faulty(TransferOffset(v, base, offset, c), Times(TransferSize(v, count, c), v.BytesPerSector))
  }

  datatype Outcome =
    | Stopped              // an ASSERT of the source fires
    | Failed(status: Status)
    | SectorsRead(count: nat)

  /** `n` sectors are what a read of `count` sectors delivers: all, or up to the end of the chain. */
  ghost predicate Delivers(v: Volume, base: nat, offset: nat, count: nat, n: nat) {
    && n <= count
    && HasCluster(v, base, Quotient(offset, v.SectorsPerCluster))
    && exists c: nat :: DeliversIn(v, base, offset, count, n, c)
  }

  ghost predicate DeliversIn(v: Volume, base: nat, offset: nat, count: nat, n: nat, c: nat) {
    && n == Min(count, Times(c, v.SectorsPerCluster))
    && (forall d :: 0 <= d < c ==> Times(d, v.SectorsPerCluster) < count && Transfers(v, base, offset, count, d))
    && (n < count ==> c > 0 && ChainEnds(v, ReadStart(v, base, offset), c))
  }

  /** The read fails with `status` at its c-th transfer, after the ones before it were done. */
  ghost predicate FailsAt(v: Volume, base: nat, offset: nat, count: nat, status: Status, c: nat) {
    && Times(c, v.SectorsPerCluster) < count && HasCluster(v, base, Quotient(offset, v.SectorsPerCluster))
    && (forall d :: 0 <= d < c ==> Transfers(v, base, offset, count, d))
    && (if Reaches(v, base, offset, c) then !Transfers(v, base, offset, count, c) && status == DeviceFault
        else Walk(v, ReadStart(v, base, offset), c) == Err(status))
  }

  /** Where the byte comes from that a read puts at `index` of its buffer. */
  function BufferByte(v: Volume, base: nat, offset: nat, index: nat): nat {
    TransferOffset(v, base, offset, Quotient(index, ClusterBytes(v))) + Remainder(index, ClusterBytes(v))
  }

  lemma ByteOfTransfer(v: Volume, base: nat, offset: nat, count: nat, c: nat, t: nat)
    requires t < Times(TransferSize(v, count, c), v.BytesPerSector)
    ensures BufferByte(v, base, offset, Times(Times(c, v.SectorsPerCluster), v.BytesPerSector) + t)
         == TransferOffset(v, base, offset, c) + t
  {
    hide TransferOffset;
    hide Times;
    hide Quotient;
    hide Remainder;
    hide Wrap;
    TimesIsAssociative(c, v.SectorsPerCluster, v.BytesPerSector);
    TimesGrows(TransferSize(v, count, c), v.SectorsPerCluster, v.BytesPerSector);
    DivideExactly(c, t, ClusterBytes(v));
  }

  function Moved(v: Volume, count: nat, c: nat): nat {
    if c == 0 then 0 else Moved(v, count, c - 1) + TransferSize(v, count, c - 1)
  }

  /** The transfers are of at most a cluster, and together move the request and no more. */
  lemma {:induction false} TransfersAddUp(v: Volume, count: nat, c: nat)
    ensures TransferSize(v, count, c) <= v.SectorsPerCluster
    ensures Moved(v, count, c) == Min(count, Times(c, v.SectorsPerCluster))
  {
    hide Times;
    TimesZero(v.SectorsPerCluster);
    if c == 0 {
    } else {
      TransfersAddUp(v, count, c - 1);
      TimesSum(c - 1, 1, v.SectorsPerCluster);
      TimesOne(v.SectorsPerCluster);
    }
  }

  /** A read whose first c transfers are done fails at the next one exactly when the device does, with its
      status, or the chain does, with that of the lookup. */
  lemma FailsExactly(v: Volume, base: nat, offset: nat, count: nat, status: Status, c: nat)
    requires HasCluster(v, base, Quotient(offset, v.SectorsPerCluster)) && Times(c, v.SectorsPerCluster) < count
    requires forall d :: 0 <= d < c ==> Reaches(v, base, offset, d) && Transfers(v, base, offset, count, d)
    ensures
      var size := Min(v.SectorsPerCluster, count - Times(c, v.SectorsPerCluster));
      FailsAt(v, base, offset, count, status, c)
      <==> if Reaches(v, base, offset, c) then
             status == DeviceFault && v.Faulty(TransferOffset(v, base, offset, c), Times(size, v.BytesPerSector))
           else Walk(v, ReadStart(v, base, offset), c) == Err(status)
  {
    hide Times, Quotient, Walk, Reaches, TransferOffset, ReadStart;
  }

  /** A read that fails cannot deliver anything, so the outcome of a read is determined. */
  lemma FailureExcludesDelivery(v: Volume, base: nat, offset: nat, count: nat, status: Status, c: nat, n: nat)
    requires FailsAt(v, base, offset, count, status, c)
    ensures !Delivers(v, base, offset, count, n)
  {
    hide Times;
    hide Quotient;
    hide Remainder;
    hide Wrap;
    hide Walk;
    hide NextSector;
    hide TransferOffset;
    hide TransferSize;
    if Delivers(v, base, offset, count, n) {
      var e: nat :| DeliversIn(v, base, offset, count, n, e);
      var atFailure, atEnd := Transfers(v, base, offset, count, c), Transfers(v, base, offset, count, e);
      if e <= c {
        TimesGrows(e, c, v.SectorsPerCluster);
      }
    }
  }

  /**
   On a file the transfers follow its chain: the lookup of the next cluster works from the middle of one
   as well, and nothing wraps.
   */
  lemma {:induction false} TransfersFollowTheFile(v: Volume, base: nat, offset: nat, c: nat)
    requires v.Valid() && FileStart(v, base) && HasCluster(v, base, Quotient(offset, v.SectorsPerCluster))
    ensures
      var h, r := Quotient(offset, v.SectorsPerCluster), Remainder(offset, v.SectorsPerCluster);
      && ReadStart(v, base, offset) == StartOf(v, base, h) + r
      && (c > 0 ==> Walk(v, ReadStart(v, base, offset), c) == Walk(v, base, h + c))
      && (Reaches(v, base, offset, c) <==> HasCluster(v, base, h + c))
      && (HasCluster(v, base, h + c) ==>
            TransferOffset(v, base, offset, c)
            == Times(StartOf(v, base, h + c) + if c == 0 then r else 0, v.BytesPerSector))
  {
    hide Times;
    hide Quotient;
    hide Remainder;
    hide Wrap;
    hide NextSector;
    var h, r := Quotient(offset, v.SectorsPerCluster), Remainder(offset, v.SectorsPerCluster);
    var first := StartOf(v, base, h);
    WalkStaysOnClusters(v, base, h);
    SameNextSector(v, first, r);
    WrapsToItself(first + r);
    if c == 0 {
      WrapsToItself(Times(first + r, v.BytesPerSector));
    } else {
      TransfersFollowTheFile(v, base, offset, c - 1);
      if HasCluster(v, base, h + c) {
        WalkStaysOnClusters(v, base, h + c);
        SameNextSector(v, StartOf(v, base, h + c), 0);
        WrapsToItself(Times(StartOf(v, base, h + c), v.BytesPerSector));
      }
    }
  }

  // ---------------------------------------------------------------------------------------------
  // Chains of a known length
  // ---------------------------------------------------------------------------------------------

  ghost predicate ChainLength(v: Volume, base: nat, length: nat) {
    (forall k :: 0 <= k < length ==> HasCluster(v, base, k)) && ChainEnds(v, base, length)
  }

  lemma {:induction false} NothingPastTheEnd(v: Volume, base: nat, length: nat, k: nat)
    requires v.Valid() && ChainLength(v, base, length) && k > length
    ensures Walk(v, base, k) == Err(DeviceClusterInvalid)
  {
    hide Times;
    hide Quotient;
    hide Remainder;
    hide Wrap;
    if k == length + 1 {
      NoClusterAtZero(v);
    } else {
      NothingPastTheEnd(v, base, length, k - 1);
    }
  }

  lemma NoClusterAtZero(v: Volume)
    requires v.Valid()
    ensures ClusterOfSector(v, 0) == Err(DeviceClusterInvalid)
  {
    ClusterOfSectorExact(v, 0);
    TimesZero(v.BytesPerSector);
  }

  /** A read is stopped when it starts exactly at the end of the file, and fails when it starts beyond. */
  lemma StartsPastTheEnd(v: Volume, base: nat, length: nat, offset: nat)
    requires v.Valid() && ChainLength(v, base, length)
    ensures
      var h := Quotient(offset, v.SectorsPerCluster);
      && (ChainEnds(v, base, h) <==> h == length)
      && (h > length ==> Walk(v, base, h) == Err(DeviceClusterInvalid))
      && (h < length <==> offset < Times(length, v.SectorsPerCluster))
  {
    hide Times;
    hide Quotient;
    hide Remainder;
    hide Wrap;
    var h := Quotient(offset, v.SectorsPerCluster);
    QuotientBelow(offset, length, v.SectorsPerCluster);
    if h > length {
      NothingPastTheEnd(v, base, length, h);
    } else if h < length {
      assert HasCluster(v, base, h);
    }
  }

  /** What is delivered is the request, cut at the end of the file (at whole clusters from the start). */
  lemma DeliversUpToTheEnd(v: Volume, base: nat, offset: nat, count: nat, n: nat, length: nat)
    requires v.Valid() && FileStart(v, base) && ChainLength(v, base, length)
    requires Delivers(v, base, offset, count, n)
    ensures Quotient(offset, v.SectorsPerCluster) < length
    ensures n == Min(count, Times(length - Quotient(offset, v.SectorsPerCluster), v.SectorsPerCluster))
    ensures Remainder(offset, v.SectorsPerCluster) == 0
            ==> offset + n == Min(offset + count, Times(length, v.SectorsPerCluster))
  {
    hide Times;
    hide Quotient;
    hide Remainder;
    hide Wrap;
    hide Walk;
    hide NextSector;
    hide TransferOffset;
    hide TransferSize;
    hide Volume.Valid;
    var h := Quotient(offset, v.SectorsPerCluster);
    StartsPastTheEnd(v, base, length, offset);
    var c: nat :| DeliversIn(v, base, offset, count, n, c);
    TransfersFollowTheFile(v, base, offset, c);
    if c > 0 {
      assert Transfers(v, base, offset, count, c - 1);
      TransfersFollowTheFile(v, base, offset, c - 1);
      if h + c - 1 > length {
        NothingPastTheEnd(v, base, length, h + c - 1);
      }
      assert h + c <= length;
    }
    TimesGrows(c, length - h, v.SectorsPerCluster);
    if n < count {
      var atEnd := HasCluster(v, base, h + c);
    }
    TimesSum(h, length - h, v.SectorsPerCluster);
    Division(offset, v.SectorsPerCluster);
  }

  /** And it is delivered, when the device does not fail. */
  lemma DeliversWhenNothingFails(v: Volume, base: nat, offset: nat, count: nat, length: nat)
    requires v.Valid() && FileStart(v, base) && ChainLength(v, base, length)
    requires Quotient(offset, v.SectorsPerCluster) < length
    requires forall o: nat, m: nat :: !v.Faulty(o, m)
    ensures exists n :: Delivers(v, base, offset, count, n)
  {
    hide Times;
    hide Quotient;
    hide Remainder;
    hide Wrap;
    hide Walk;
    hide NextSector;
    hide TransferOffset;
    hide TransferSize;
    hide Volume.Valid;
    var spc, h := v.SectorsPerCluster, Quotient(offset, v.SectorsPerCluster);
    var wanted := Quotient(count + spc - 1, spc);
    var c := Min(wanted, length - h);
    QuotientBelow(count + spc - 1, wanted + 1, spc);
    TimesSum(wanted, 1, spc);
    TimesGrows(1, 1, spc);
    assert HasCluster(v, base, h + 0);
    assert count <= Times(wanted, spc) by {
      TimesOne(spc);
    }
    forall d | 0 <= d < c
      ensures Times(d, spc) < count && Transfers(v, base, offset, count, d)
    {
      QuotientBelow(count + spc - 1, d + 1, spc);
      TimesSum(d, 1, spc);
      TimesOne(spc);
      assert HasCluster(v, base, h + d);
      TransfersFollowTheFile(v, base, offset, d);
    }
    TransfersFollowTheFile(v, base, offset, c);
    assert DeliversIn(v, base, offset, count, Min(count, Times(c, spc)), c);
    assert Delivers(v, base, offset, count, Min(count, Times(c, spc)));
  }

  // ---------------------------------------------------------------------------------------------
  // When the buffer is the file
  // ---------------------------------------------------------------------------------------------

  predicate SameByte(v: Volume, base: nat, offset: nat, i: nat) {
    FileByte(v, base, Times(offset, v.BytesPerSector) + i) == Ok(BufferByte(v, base, offset, i))
  }

  /** Where in the file the byte belongs that stands at index c * ClusterBytes + t after the offset. */
  lemma FilePlace(v: Volume, offset: nat, c: nat, t: nat)
    requires t < ClusterBytes(v)
    ensures
      var place := Times(offset, v.BytesPerSector) + Times(c, ClusterBytes(v)) + t;
      var h := Quotient(offset, v.SectorsPerCluster);
      var u := Times(Remainder(offset, v.SectorsPerCluster), v.BytesPerSector) + t;
      && Quotient(place, ClusterBytes(v)) == (if u < ClusterBytes(v) then h + c else h + c + 1)
      && Remainder(place, ClusterBytes(v)) == (if u < ClusterBytes(v) then u else u - ClusterBytes(v))
  {
    hide Times;
    hide Quotient;
    hide Remainder;
    hide Wrap;
    var spc, bps, bytes := v.SectorsPerCluster, v.BytesPerSector, ClusterBytes(v);
    var h, r := Quotient(offset, spc), Remainder(offset, spc);
    var u := Times(r, bps) + t;
    Division(offset, spc);
    TimesSum(Times(h, spc), r, bps);
    TimesIsAssociative(h, spc, bps);
    TimesSum(h, c, bytes);
    TimesSum(h + c, 1, bytes);
    TimesOne(bytes);
    TimesGrows(r, spc, bps);
    if u < bytes {
      DivideExactly(h + c, u, bytes);
    } else {
      DivideExactly(h + c + 1, u - bytes, bytes);
    }
  }

  lemma SameByteExact(v: Volume, base: nat, offset: nat, c: nat, t: nat)
    requires v.Valid() && FileStart(v, base) && HasCluster(v, base, Quotient(offset, v.SectorsPerCluster))
    requires t < ClusterBytes(v) && HasCluster(v, base, Quotient(offset, v.SectorsPerCluster) + c)
    requires c == 0 || Times(Remainder(offset, v.SectorsPerCluster), v.BytesPerSector) + t < ClusterBytes(v)
    ensures
      var h, r := Quotient(offset, v.SectorsPerCluster), Remainder(offset, v.SectorsPerCluster);
      SameByte(v, base, offset, Times(c, ClusterBytes(v)) + t)
      <==> if Times(r, v.BytesPerSector) + t < ClusterBytes(v) then r == 0 || c == 0
           else Walk(v, base, h + 1) == Ok(StartOf(v, base, h) + v.SectorsPerCluster)
  {
    hide Times;
    hide Quotient;
    hide Remainder;
    hide Wrap;
    hide Walk;
    var spc, bps, bytes := v.SectorsPerCluster, v.BytesPerSector, ClusterBytes(v);
    var h, r := Quotient(offset, spc), Remainder(offset, spc);
    hide TransferOffset;
    hide Volume.Valid;
    TransfersFollowTheFile(v, base, offset, c);
    FilePlace(v, offset, c, t);
    DivideExactly(c, t, bytes);
    var from := Walk(v, base, h + c).value;
    TimesSum(from, r, bps);
    TimesZero(bps);
    if r > 0 {
      TimesPositive(r, bps);
    }
    if Times(r, bps) + t >= bytes && Walk(v, base, h + c + 1).Ok? {
      var next := Walk(v, base, h + c + 1).value;
      TimesSum(from, spc, bps);
      if next < from + spc {
        TimesLess(next, from + spc, bps);
      } else if next > from + spc {
        TimesLess(from + spc, next, bps);
      }
    }
  }

  /**
   The bytes of a read are those of the file from the offset on exactly when the offset is a whole
   number of clusters, or the request fits in the rest of one cluster, or it reaches no further than the
   next cluster and that one follows physically: a read that starts inside a cluster still moves whole
   clusters.
   */
  lemma ReadsTheFile(v: Volume, base: nat, offset: nat, n: nat)
    requires v.Valid() && FileStart(v, base) && 0 < n
    requires forall c: nat :: Times(c, v.SectorsPerCluster) < n
                              ==> HasCluster(v, base, Quotient(offset, v.SectorsPerCluster) + c)
    ensures
      var h, r := Quotient(offset, v.SectorsPerCluster), Remainder(offset, v.SectorsPerCluster);
      (forall i: nat :: i < Times(n, v.BytesPerSector) ==> SameByte(v, base, offset, i))
      <==> || r == 0 || r + n <= v.SectorsPerCluster
           || (n <= v.SectorsPerCluster
               && Walk(v, base, h + 1) == Ok(StartOf(v, base, h) + v.SectorsPerCluster))
  {
    hide Times;
    hide Quotient;
    hide Remainder;
    hide Wrap;
    hide Walk;
    hide Volume.Valid;
    var spc, bps, bytes := v.SectorsPerCluster, v.BytesPerSector, ClusterBytes(v);
    var h, r := Quotient(offset, spc), Remainder(offset, spc);
    var inNext := Walk(v, base, h + 1) == Ok(StartOf(v, base, h) + spc);
    TimesZero(spc);
    TimesZero(bytes);
    TimesOne(bytes);
    if r == 0 || r + n <= spc || (n <= spc && inNext) {
      forall i: nat | i < Times(n, bps)
        ensures SameByte(v, base, offset, i)
      {
        var c, t := Quotient(i, bytes), Remainder(i, bytes);
        Division(i, bytes);
        TimesIsAssociative(c, spc, bps);
        if Times(c, spc) >= n {
          TimesGrows(n, Times(c, spc), bps);
        }
        if r == 0 {
          TimesZero(bps);
        } else {
          TimesGrows(n, spc, bps);
          QuotientBelow(i, 1, bytes);
          TimesSum(r, n, bps);
          if r + n <= spc {
            TimesGrows(r + n, spc, bps);
          }
        }
        SameByteExact(v, base, offset, c, t);
      }
    } else if n <= spc {
      var i := Times(spc - r, bps);
      TimesSum(spc - r, r, bps);
      TimesPositive(r, bps);
      TimesLess(spc - r, n, bps);
      SameByteExact(v, base, offset, 0, i);
      assert !SameByte(v, base, offset, i);
    } else {
      TimesLess(spc, n, bps);
      TimesLess(r, spc, bps);
      TimesOne(spc);
      SameByteExact(v, base, offset, 1, 0);
      assert !SameByte(v, base, offset, bytes);
    }
  }

  /**
   A read from a whole number of clusters, or within one cluster, delivers exactly the file from the
   offset on: min(request, file length - offset) sectors, each byte from its place in the flattened file.
   */
  lemma AlignedReadIsTheFile(v: Volume, base: nat, offset: nat, count: nat, n: nat, length: nat)
    requires v.Valid() && FileStart(v, base) && ChainLength(v, base, length)
    requires Delivers(v, base, offset, count, n)
    requires || Remainder(offset, v.SectorsPerCluster) == 0
             || Remainder(offset, v.SectorsPerCluster) + count <= v.SectorsPerCluster
    ensures offset + n == Min(offset + count, Times(length, v.SectorsPerCluster))
    ensures forall i: nat :: i < Times(n, v.BytesPerSector) ==> SameByte(v, base, offset, i)
  {
    hide Times;
    hide Quotient;
    hide Remainder;
    hide Wrap;
    hide Walk;
    hide NextSector;
    hide TransferOffset;
    hide TransferSize;
    hide SameByte;
    hide Volume.Valid;
    var spc, h := v.SectorsPerCluster, Quotient(offset, v.SectorsPerCluster);
    var e: nat :| DeliversIn(v, base, offset, count, n, e);
    DeliversUpToTheEnd(v, base, offset, count, n, length);
    Division(offset, spc);
    TimesOne(spc);
    TimesGrows(1, length - h, spc);
    TimesSum(h, length - h, spc);
    TimesZero(v.BytesPerSector);
    if n > 0 {
      forall c: nat | Times(c, spc) < n
        ensures HasCluster(v, base, h + c)
      {
        if c >= e {
          TimesGrows(e, c, spc);
        }
        var reached := Transfers(v, base, offset, count, c);
        TransfersFollowTheFile(v, base, offset, c);
      }
      ReadsTheFile(v, base, offset, n);
    }
  }

  /**
   What a link on the volume means, from any sector of a cluster: the low 28 bits of the DWORD in the
   cluster's FAT entry name the next cluster, unless they are 0 or from 0x0FFFFFF7 on, or the device fails.
   */
  lemma LinkExactly(v: Volume, cluster: nat, k: nat, n: nat)
    requires v.Valid() && ValidCluster(v, cluster) && k < v.SectorsPerCluster
    requires HoldsDword(v, EntryOffset(v, cluster), n)
    ensures
      var low := n % 0x1000_0000;
      NextSector(v, FirstSectorOfCluster(v, cluster).value + k)
      == if v.Faulty(FatSectorOffset(v, cluster), v.BytesPerSector) then Err(DeviceFault)
         else if low == 0 || low >= 0x0FFF_FFF7 then Ok(0)
         else FirstSectorOfCluster(v, low)
  {
    hide HoldsDword;
    hide DwordAt;
    hide ClusterOfSector;
    hide FirstSectorOfCluster;
    hide FatSectorOffset;
    hide OffsetInSector;
    hide EntryOffset;
    ClusterOfItsSectors(v, cluster, k);
    EntryInItsSector(v, cluster);
    DwordIsHeld(v, EntryOffset(v, cluster), n);
  }

  // ---------------------------------------------------------------------------------------------
  // A read that is not the file
  // ---------------------------------------------------------------------------------------------

  /** FatInitVolume takes a volume of fewer clusters for FAT12 or FAT16, and refuses it. */
  const FAT16_MAX_CLUSTERS: nat := 65525

  /**
   The smallest volume that is mounted: 32 reserved sectors, two FATs of 512 sectors, clusters of two
   sectors. A file is in the first and the third cluster, and the second cluster is not all zero.
   */
  function SplitFile(): Volume {
    Volume(FAT16_MAX_CLUSTERS, 32, 32 + 2 * 512, 2, 512,
           o => if o == 16392 then 4 else if 16400 <= o < 16403 then 0xFF else if o == 16403 then 0x0F
                else if o == 541696 then 1 else 0,
           (o, m) => false)
  }

  lemma SplitFileIsValid()
    ensures SplitFile().Valid()
  {
    assert Times(32, 512) == 16384 && Times(1056, 512) == 540672;
    assert Times(65525, 2) == 131050 && Times(132106, 512) == 67638272;
  }

  lemma SplitFileEntry(cluster: nat)
    requires ValidCluster(SplitFile(), cluster)
    ensures Entry(SplitFile(), cluster) == Ok(DwordAt(SplitFile(), 16384 + FAT_ENTRY_BYTES * cluster))
  {
    hide Wrap;
    hide Quotient;
    hide Remainder;
    hide FatSectorOffset;
    hide OffsetInSector;
    SplitFileIsValid();
    EntryInItsSector(SplitFile(), cluster);
    assert Times(32, 512) == 16384;
  }

  lemma SplitFileSector(cluster: nat)
    requires ValidCluster(SplitFile(), cluster)
    ensures FirstSectorOfCluster(SplitFile(), cluster) == Ok(2 * cluster + 1052)
    ensures ClusterOfSector(SplitFile(), 2 * cluster + 1052) == Ok(cluster)
  {
    hide Wrap;
    hide Quotient;
    hide FirstSectorOfCluster;
    hide ClusterOfSector;
    SplitFileIsValid();
    FirstSectorExact(SplitFile(), cluster);
    ClusterOfItsSectors(SplitFile(), cluster, 0);
    assert Times(cluster - 2, 2) == 2 * cluster - 4;
  }

  lemma SplitFileDwords()
    ensures DwordAt(SplitFile(), 16392) == 4 && DwordAt(SplitFile(), 16400) == 0x0FFF_FFFF
  {
  }

  lemma SplitFileClusters()
    ensures ValidCluster(SplitFile(), 2) && ValidCluster(SplitFile(), 4)
  {
  }

  lemma SplitFileNext()
    ensures NextSector(SplitFile(), 1056) == Ok(1060) && NextSector(SplitFile(), 1060) == Ok(0)
    ensures StartsCluster(SplitFile(), 1056, 2)
  {
    hide SplitFile;
    hide ValidCluster;
    hide DwordAt;
    hide Entry;
    hide FirstSectorOfCluster;
    hide ClusterOfSector;
    SplitFileClusters();
    SplitFileDwords();
    SplitFileSector(2);
    SplitFileSector(4);
    SplitFileEntry(2);
    SplitFileEntry(4);
  }

  lemma SplitFileChain()
    ensures FileStart(SplitFile(), 1056) && ChainLength(SplitFile(), 1056, 2)
    ensures Walk(SplitFile(), 1056, 1) == Ok(1060)
  {
    hide SplitFile;
    hide NextSector;
    hide StartsCluster;
    SplitFileNext();
    WalkNowhere(SplitFile(), 1056);
    WalkOnce(SplitFile(), 1056, 1);
    WalkOnce(SplitFile(), 1056, 2);
  }

  /**
   Two sectors read from the second sector of that file: the read succeeds with both, and the second is not
   the file's but that of the cluster that follows on the volume.
   */
  lemma ReadThatIsNotTheFile()
    ensures
      var v := SplitFile();
      && v.Valid() && v.CountOfClusters >= FAT16_MAX_CLUSTERS && PowerOfTwo(v.SectorsPerCluster)
      && FileStart(v, 1056) && IsAligned(1056, v.SectorsPerCluster) && ChainLength(v, 1056, 2)
      && Delivers(v, 1056, 1, 2, 2)
      && FileByte(v, 1056, Times(1, v.BytesPerSector) + 512).Ok?
      && v.ByteAt(FileByte(v, 1056, Times(1, v.BytesPerSector) + 512).value) != v.ByteAt(BufferByte(v, 1056, 1, 512))
  {
    hide Walk;
    var v := SplitFile();
    hide Wrap;
    hide TransferOffset;
    hide NextSector;
    hide FileByte;
    SplitFileIsValid();
    SplitFileChain();
    assert PowerOfTwo(2);
    MaskIsRemainder(1056, 2);
    assert HasCluster(v, 1056, 0) && Quotient(1, 2) == 0 && Remainder(1, 2) == 1;
    WalkNowhere(v, 1056);
    TransfersFollowTheFile(v, 1056, 1, 0);
    assert DeliversIn(v, 1056, 1, 2, 2, 1);
    DivideExactly(0, 512, 1024);
    assert ClusterBytes(v) == 1024;
    assert BufferByte(v, 1056, 1, 512) == 541696;
    SplitFileByte();
  }

  lemma SplitFileByte()
    ensures FileByte(SplitFile(), 1056, 1024) == Ok(542720)
  {
    hide Walk;
    SplitFileChain();
    DivideExactly(1, 0, 1024);
    assert ClusterBytes(SplitFile()) == 1024;
  }

  // ---------------------------------------------------------------------------------------------
  // FatReadFile
  // ---------------------------------------------------------------------------------------------

  /** IoReadDeviceEx into the buffer at `position`. */
  method IoReadDevice(v: Volume, buffer: array<Byte>, position: nat, offset: nat, count: nat)
    returns (failed: bool)
    requires position + count <= buffer.Length
    modifies buffer
    ensures failed == v.Faulty(offset, count)
    ensures forall i :: 0 <= i < buffer.Length && (failed || i < position || position + count <= i)
                        ==> buffer[i] == old(buffer[i])
    ensures !failed ==> forall i :: position <= i < position + count ==> buffer[i] == v.ByteAt(offset + i - position)
  {
    var data := v.Read(offset, count);
    failed := data.Err?;
    if !failed {
      forall i | position <= i < position + count {
        buffer[i] := data.value[i - position];
      }
    }
  }

  lemma SkipGuard(offset: nat, k: nat, spc: Positive)
    requires offset < QWORD_VALUES && k <= Quotient(offset, spc)
    requires k < Quotient(offset, spc) || Times(k + 1, spc) < QWORD_VALUES
    ensures Wrap(Times(k, spc) + spc) == Times(k + 1, spc)
    ensures Times(k + 1, spc) <= offset <==> k < Quotient(offset, spc)
    ensures k < Quotient(offset, spc) ==> offset >= spc
  {
    hide Times;
    hide Quotient;
    hide Wrap;
    TimesSum(k, 1, spc);
    TimesOne(spc);
    QuotientBelow(offset, k + 1, spc);
    WrapsToItself(Times(k, spc) + spc);
  }

  lemma {:induction false} WalkFails(v: Volume, base: nat, k: nat, h: nat)
    requires Walk(v, base, k).Err? && k <= h
    ensures Walk(v, base, h) == Walk(v, base, k)
  {
    hide NextSector;
    if k >= h {
    } else {
      WalkFails(v, base, k, h - 1);
    }
  }

  /** The second loop: transfers of up to a cluster, from the current sector on. */
  method ReadClusters(v: Volume, ghost base: nat, ghost offset: nat, startSector: nat,
                      buffer: array<Byte>, sectorsToRead: nat)
    returns (r: Outcome)
    requires v.Valid() && HasCluster(v, base, Quotient(offset, v.SectorsPerCluster))
    requires startSector == ReadStart(v, base, offset)
    requires Times(sectorsToRead, v.BytesPerSector) <= buffer.Length
    modifies buffer
    ensures !r.Stopped?
    ensures r.Failed? ==> exists c: nat :: FailsAt(v, base, offset, sectorsToRead, r.status, c)
    ensures r.SectorsRead? ==> Delivers(v, base, offset, sectorsToRead, r.count)
    ensures r.SectorsRead? ==> Times(r.count, v.BytesPerSector) <= buffer.Length
    ensures r.SectorsRead?
            ==> forall i :: 0 <= i < Times(r.count, v.BytesPerSector)
                            ==> buffer[i] == v.ByteAt(BufferByte(v, base, offset, i))
    ensures forall i :: Times(sectorsToRead, v.BytesPerSector) <= i < buffer.Length ==> buffer[i] == old(buffer[i])
  {
    hide Times;
    hide Quotient;
    hide Remainder;
    hide Wrap;
    hide NextSector;
    hide Walk;
    hide BufferByte;
    hide ReadStart;
    WalkNowhere(v, startSector);
    ghost var h, c: nat := Quotient(offset, v.SectorsPerCluster), 0;
    var spc, bps := v.SectorsPerCluster, v.BytesPerSector;
    var currentSector, sectorsRemaining, position, firstIteration := startSector, sectorsToRead, 0, true;
    TimesZero(spc);
    TimesZero(bps);
    while sectorsRemaining != 0
      invariant firstIteration <==> c == 0
      invariant sectorsRemaining == sectorsToRead - Min(sectorsToRead, Times(c, spc))
      invariant position == Times(sectorsToRead - sectorsRemaining, bps)
      invariant forall d :: 0 <= d < c ==> Times(d, spc) < sectorsToRead && Transfers(v, base, offset, sectorsToRead, d)
      invariant currentSector < QWORD_VALUES
      invariant Walk(v, ReadStart(v, base, offset), if c == 0 then 0 else c - 1) == Ok(currentSector)
      invariant position <= buffer.Length
      invariant forall i :: 0 <= i < position ==> buffer[i] == v.ByteAt(BufferByte(v, base, offset, i))
      invariant forall i :: Times(sectorsToRead, bps) <= i < buffer.Length ==> buffer[i] == old(buffer[i])
      decreases sectorsRemaining
    {
      if !firstIteration {
        WalkOnce(v, ReadStart(v, base, offset), c);
        var next := NextSectorInClusterChain(v, currentSector);
        if next.Err? {
          assert FailsAt(v, base, offset, sectorsToRead, next.status, c);
          return Failed(next.status);
        }
        currentSector := next.value;
        if next.value == 0 {
          assert DeliversIn(v, base, offset, sectorsToRead, sectorsToRead - sectorsRemaining, c);
          return SectorsRead(sectorsToRead - sectorsRemaining);
        }
      }
      assert Reaches(v, base, offset, c);
      var sectors := Min(spc, sectorsRemaining);
      var bytesToRead := Times(sectors, bps);
      TimesSum(sectorsToRead - sectorsRemaining, sectors, bps);
      TimesSum(sectorsToRead - sectorsRemaining + sectors, sectorsRemaining - sectors, bps);
      var failed := IoReadDevice(v, buffer, position, Wrap(Times(currentSector, bps)), bytesToRead);
      if failed {
        assert FailsAt(v, base, offset, sectorsToRead, DeviceFault, c);
        return Failed(DeviceFault);
      }
      forall i: nat | position <= i < position + bytesToRead
        ensures buffer[i] == v.ByteAt(BufferByte(v, base, offset, i))
      {
        ByteOfTransfer(v, base, offset, sectorsToRead, c, i - position);
      }
      TimesSum(c, 1, spc);
      TimesOne(spc);
      position := position + bytesToRead;
      sectorsRemaining := sectorsRemaining - sectors;
      firstIteration := false;
      c := c + 1;
    }
    assert DeliversIn(v, base, offset, sectorsToRead, sectorsToRead, c);
    r := SectorsRead(sectorsToRead);
  }

  lemma WalkNowhere(v: Volume, base: nat)
    ensures Walk(v, base, 0) == Ok(base)
  {
  }

  lemma WalkOnce(v: Volume, base: nat, k: nat)
    requires k > 0 && Walk(v, base, k - 1).Ok?
    ensures Walk(v, base, k) == NextSector(v, Walk(v, base, k - 1).value)
  {
  }

  lemma {:induction false} WalkRepeats(v: Volume, base: nat, i: nat, j: nat, m: nat)
    requires Walk(v, base, i) == Walk(v, base, j)
    ensures Walk(v, base, i + m) == Walk(v, base, j + m)
  {
    hide NextSector;
    if m == 0 {
    } else {
      WalkRepeats(v, base, i, j, m - 1);
    }
  }

  function ClusterAt(v: Volume, base: nat, k: nat): nat {
    match ClusterOfSector(v, StartOf(v, base, k))
    case Ok(cluster) => cluster
    case Err(_) => 0
  }

  lemma ClusterAtIs(v: Volume, base: nat, k: nat)
    requires v.Valid() && FileStart(v, base) && HasCluster(v, base, k)
    ensures 2 <= ClusterAt(v, base, k) <= v.CountOfClusters + 1
    ensures FirstSectorOfCluster(v, ClusterAt(v, base, k)) == Walk(v, base, k)
  {
    hide Times;
    hide Walk;
    hide FirstSectorOfCluster;
    hide ClusterOfSector;
    WalkStaysOnClusters(v, base, k);
    var sector := Walk(v, base, k).value;
    var cluster: nat :| StartsCluster(v, sector, cluster);
    ClusterOfItsSectors(v, cluster, 0);
  }

  /** A file whose chain ends has no more clusters than the volume. */
  lemma FileIsInTheVolume(v: Volume, base: nat, length: nat)
    requires v.Valid() && FileStart(v, base) && ChainLength(v, base, length)
    ensures length <= v.CountOfClusters
  {
    hide ClusterAt;
    hide Walk;
    var clusters := seq(length, k requires 0 <= k < length => Max(ClusterAt(v, base, k), 2) - 2);
    forall k | 0 <= k < length
      ensures clusters[k] < v.CountOfClusters
    {
      ClusterAtIs(v, base, k);
    }
    forall i, j | 0 <= i < j < length
      ensures clusters[i] != clusters[j]
    {
      ClusterAtIs(v, base, i);
      ClusterAtIs(v, base, j);
      assert HasCluster(v, base, i + (length - j));
      if Walk(v, base, i) == Walk(v, base, j) {
        WalkRepeats(v, base, i, j, length - j);
      }
    }
    Pigeonhole(clusters, v.CountOfClusters);
  }

  /** A read of a file whose chain ends meets what FatReadFile asks of an offset, for every QWORD. */
  lemma EveryOffsetOfAFile(v: Volume, base: nat, length: nat, offset: nat)
    requires v.Valid() && FileStart(v, base) && ChainLength(v, base, length) && offset < QWORD_VALUES
    ensures || Times(Quotient(offset, v.SectorsPerCluster) + 1, v.SectorsPerCluster) < QWORD_VALUES
            || Walk(v, base, Quotient(offset, v.SectorsPerCluster)).Err?
  {
    hide Times;
    hide Quotient;
    hide Walk;
    var h := Quotient(offset, v.SectorsPerCluster);
    FileIsInTheVolume(v, base, length);
    if h <= length {
      TimesGrows(h + 1, DWORD_VALUES, v.SectorsPerCluster);
      TimesDwords(v.SectorsPerCluster);
    } else {
      NothingPastTheEnd(v, base, length, h);
    }
  }

  lemma TimesDwords(a: nat)
    requires a < DWORD_VALUES
    ensures Times(DWORD_VALUES, a) < QWORD_VALUES
  {
  }

  /**
   FatReadFile. Past the last whole cluster below 2^64 sectors the counter of the first loop wraps; there
   the chain must have failed before.
   */
  method FatReadFile(v: Volume, baseFileSector: nat, sectorOffset: nat, buffer: array<Byte>, sectorsToRead: nat)
    returns (r: Outcome)
    requires v.Valid() && baseFileSector < QWORD_VALUES && sectorOffset < QWORD_VALUES
    requires || Times(Quotient(sectorOffset, v.SectorsPerCluster) + 1, v.SectorsPerCluster) < QWORD_VALUES
             || Walk(v, baseFileSector, Quotient(sectorOffset, v.SectorsPerCluster)).Err?
    requires Times(sectorsToRead, v.BytesPerSector) <= buffer.Length
    modifies buffer
    ensures r.Stopped?
            <==> || !IsAligned(baseFileSector, v.SectorsPerCluster)
                 || ChainEnds(v, baseFileSector, Quotient(sectorOffset, v.SectorsPerCluster))
    ensures r.Failed?
            ==> || Walk(v, baseFileSector, Quotient(sectorOffset, v.SectorsPerCluster)) == Err(r.status)
                || exists c: nat :: FailsAt(v, baseFileSector, sectorOffset, sectorsToRead, r.status, c)
    ensures r.SectorsRead? ==> Delivers(v, baseFileSector, sectorOffset, sectorsToRead, r.count)
    ensures r.SectorsRead? ==> Times(r.count, v.BytesPerSector) <= buffer.Length
    ensures r.SectorsRead?
            ==> forall i :: 0 <= i < Times(r.count, v.BytesPerSector)
                            ==> buffer[i] == v.ByteAt(BufferByte(v, baseFileSector, sectorOffset, i))
    ensures forall i :: Times(sectorsToRead, v.BytesPerSector) <= i < buffer.Length ==> buffer[i] == old(buffer[i])
  {
    hide Times;
    hide Quotient;
    hide Remainder;
    hide Wrap;
    hide NextSector;
    hide IsAligned;
    ghost var h := Quotient(sectorOffset, v.SectorsPerCluster);
    if !IsAligned(baseFileSector, v.SectorsPerCluster) {
      return Stopped;
    }
    var currentSector, sectorsTraversed := baseFileSector, 0;
    ghost var k: nat := 0;
    TimesZero(v.SectorsPerCluster);
    SkipGuard(sectorOffset, 0, v.SectorsPerCluster);
    TimesOne(v.SectorsPerCluster);
    while Wrap(sectorsTraversed + v.SectorsPerCluster) <= sectorOffset
      invariant k <= h && sectorsTraversed == Times(k, v.SectorsPerCluster)
      invariant currentSector < QWORD_VALUES && Walk(v, baseFileSector, k) == Ok(currentSector)
      invariant Wrap(sectorsTraversed + v.SectorsPerCluster) <= sectorOffset <==> k < h
      invariant k < h ==> sectorOffset >= v.SectorsPerCluster
      modifies {}
      decreases h - k
    {
      assert sectorOffset >= v.SectorsPerCluster;
      var next := NextSectorInClusterChain(v, currentSector);
      if next.Err? {
        WalkFails(v, baseFileSector, k + 1, h);
        return Failed(next.status);
      }
      currentSector := next.value;
      SkipGuard(sectorOffset, k, v.SectorsPerCluster);
      SkipGuard(sectorOffset, k + 1, v.SectorsPerCluster);
      sectorsTraversed := Wrap(sectorsTraversed + v.SectorsPerCluster);
      k := k + 1;
    }
    if currentSector == 0 {
      return Stopped;
    }
    currentSector := Wrap(currentSector + Remainder(sectorOffset, v.SectorsPerCluster));
    r := ReadClusters(v, baseFileSector, sectorOffset, currentSector, buffer, sectorsToRead);
  }
}
