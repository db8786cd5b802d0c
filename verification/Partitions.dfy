/**
 Finding the partitions of a disk: the two passes of _DiskRetrievePartitionsFromDisk in
 Disk/src/disk.c over its recursive walk through the MBR and the chain of extended boot records.
 */
module Partitions {
  import opened Basics
  import opened MachineWords

  const MBR_NO_OF_PARTITIONS: nat := 4
  const MBR_EXT_PARTITION_NO_OF_ENTRIES: nat := 2
  const MBR_BOOT_SIGNATURE: nat := 0xAA55
  const MBR_STATUS_ACTIVE: nat := 0x80
  const MBR_STATUS_INACTIVE: nat := 0x00
  const MBR_PARTITION_EXTENDED_CHS: nat := 0x5
  const MBR_PARTITION_EXTENDED_LBA: nat := 0xF

  /** MBR_PARTITION_ENTRY; the CHS addresses only matter for whether an entry is all zero. */
  datatype Entry = Entry(Status: nat, FirstSectorCHS: nat, PartitionType: nat, LastSectorCHS: nat,
                         FirstSectorLBA: nat, NumberOfSectors: nat)
  {
    predicate IsZero() {
      && Status == 0 && FirstSectorCHS == 0 && PartitionType == 0 && LastSectorCHS == 0
      && FirstSectorLBA == 0 && NumberOfSectors == 0
    }

    predicate HasValidStatus() {
      Status == MBR_STATUS_ACTIVE || Status == MBR_STATUS_INACTIVE
    }

    predicate IsExtended() {
      PartitionType == MBR_PARTITION_EXTENDED_LBA || PartitionType == MBR_PARTITION_EXTENDED_CHS
    }
  }

  type Entries = s: seq<Entry> | |s| == MBR_NO_OF_PARTITIONS
    witness seq(MBR_NO_OF_PARTITIONS, _ => Entry(0, 0, 0, 0, 0, 0))

  /** A sector read as a boot record. */
  datatype Sector = Unreadable | BootRecord(Partitions: Entries, BootSignature: nat)

  datatype Disk = Disk(read: nat -> Sector) {
    function At(lba: nat): Sector {
      read(lba)
    }
  }

  datatype Status = Success | ReadFailed | MbrNotPresent | Stopped // Stopped: an ASSERT of the source fires

  datatype PartitionInformation =
    PartitionInformation(Bootable: bool, OffsetInDisk: nat, PartitionSize: nat, PartitionType: nat)

  // ---------------------------------------------------------------------------------------------
  // One boot record
  // ---------------------------------------------------------------------------------------------

  /** The arguments of one activation of the walk. */
  datatype Level = Level(DiskOffset: nat, ExtendedPartition: bool, FirstExtendedPartitionLBA: nat)

  const MASTER := Level(0, false, 0)

  function EntriesToIterateOver(level: Level): nat {
    if level.ExtendedPartition then MBR_EXT_PARTITION_NO_OF_ENTRIES else MBR_NO_OF_PARTITIONS
  }

  /** Why a level is given up before its entries are looked at. */
  function ErrorOf(disk: Disk, level: Level): Status {
    if level.ExtendedPartition == (level.FirstExtendedPartitionLBA == 0) then Stopped
    else
      match disk.At(level.DiskOffset)
      case Unreadable => ReadFailed
      case BootRecord(_, signature) => if signature != MBR_BOOT_SIGNATURE then MbrNotPresent else Success
  }

  /** What becomes of an entry: it ends the level, is passed over, leads on, or is a partition. */
  datatype Role = Terminator | Invalid | Link | Partition

  function RoleOf(level: Level, e: Entry): Role {
    if level.ExtendedPartition && e.IsZero() then Terminator
    else if !e.HasValidStatus() then Invalid
    else if e.IsExtended() then Link
    else Partition
  }

  /** The offset of a partition is relative to the boot record that lists it. */
  function InformationOf(level: Level, e: Entry): PartitionInformation {
    PartitionInformation(e.Status == MBR_STATUS_ACTIVE, (e.FirstSectorLBA + level.DiskOffset) % DWORD_VALUES,
                         e.NumberOfSectors, e.PartitionType)
  }

  /** A link is relative to the first extended partition, which the first link of all names. */
  function LinkedLevel(level: Level, e: Entry): Level {
    Level((e.FirstSectorLBA + level.FirstExtendedPartitionLBA) % DWORD_VALUES, true,
          if level.ExtendedPartition then level.FirstExtendedPartitionLBA else e.FirstSectorLBA)
  }

  /** The partitions among the entries from i on: up to a terminator, a link or the end of the table. */
  function ScanPartitions(level: Level, entries: Entries, i: nat): seq<PartitionInformation>
    requires i <= EntriesToIterateOver(level)
    decreases EntriesToIterateOver(level) - i
  {
    if i == EntriesToIterateOver(level) then []
    else
      match RoleOf(level, entries[i])
      case Terminator => []
      case Link => []
      case Invalid => ScanPartitions(level, entries, i + 1)
      case Partition => [InformationOf(level, entries[i])] + ScanPartitions(level, entries, i + 1)
  }

  function ScanLink(level: Level, entries: Entries, i: nat): Option<Level>
    requires i <= EntriesToIterateOver(level)
    decreases EntriesToIterateOver(level) - i
  {
    if i == EntriesToIterateOver(level) then None
    else
      match RoleOf(level, entries[i])
      case Terminator => None
      case Link => Some(LinkedLevel(level, entries[i]))
      case Invalid => ScanLink(level, entries, i + 1)
      case Partition => ScanLink(level, entries, i + 1)
  }

  function PartitionsOf(disk: Disk, level: Level): seq<PartitionInformation> {
    if ErrorOf(disk, level) != Success then [] else ScanPartitions(level, disk.At(level.DiskOffset).Partitions, 0)
  }

  function Next(disk: Disk, level: Level): Option<Level> {
    if ErrorOf(disk, level) != Success then None else ScanLink(level, disk.At(level.DiskOffset).Partitions, 0)
  }

  /** Entry j is reached when a record is scanned from entry i on. */
  predicate Reached(level: Level, entries: Entries, i: nat, j: nat) {
    && i <= j < EntriesToIterateOver(level)
    && forall h :: i <= h < j ==> RoleOf(level, entries[h]).Invalid? || RoleOf(level, entries[h]).Partition?
  }

  /** The link of a record is the first extended entry that is reached; no partition behind it counts. */
  lemma {:induction false} LinkIsTheFirstExtended(level: Level, entries: Entries, i: nat)
    requires i <= EntriesToIterateOver(level)
    ensures ScanLink(level, entries, i).Some?
            ==> exists j: nat :: Reached(level, entries, i, j) && RoleOf(level, entries[j]).Link?
                            && ScanLink(level, entries, i) == Some(LinkedLevel(level, entries[j]))
    ensures forall j: nat :: Reached(level, entries, i, j) && RoleOf(level, entries[j]).Link?
                        ==> ScanLink(level, entries, i) == Some(LinkedLevel(level, entries[j]))
    decreases EntriesToIterateOver(level) - i
  {
    if i >= EntriesToIterateOver(level) {
    } else {
      var role := RoleOf(level, entries[i]);
      if role.Link? {
        assert Reached(level, entries, i, i);
      } else if !role.Terminator? {
        LinkIsTheFirstExtended(level, entries, i + 1);
        assert forall j: nat :: i < j ==> Reached(level, entries, i, j) == Reached(level, entries, i + 1, j);
      }
    }
  }

  /** The partitions of a record are those of the valid, not extended entries that are reached. */
  lemma {:induction false} PartitionsAreReached(level: Level, entries: Entries, i: nat, p: PartitionInformation)
    requires i <= EntriesToIterateOver(level)
    ensures p in ScanPartitions(level, entries, i)
            <==> exists j: nat :: Reached(level, entries, i, j) && RoleOf(level, entries[j]).Partition?
                             && p == InformationOf(level, entries[j])
    decreases EntriesToIterateOver(level) - i
  {
    if i >= EntriesToIterateOver(level) {
    } else {
      var role := RoleOf(level, entries[i]);
      assert Reached(level, entries, i, i);
      if role.Invalid? || role.Partition? {
        PartitionsAreReached(level, entries, i + 1, p);
        assert forall j: nat :: i < j ==> Reached(level, entries, i, j) == Reached(level, entries, i + 1, j);
      }
    }
  }

  // ---------------------------------------------------------------------------------------------
  // The chain of boot records
  // ---------------------------------------------------------------------------------------------

  /** The k-th boot record that is reached from a level. */
  function LevelAt(disk: Disk, level: Level, k: nat): Option<Level> {
    if k == 0 then Some(level)
    else
      match LevelAt(disk, level, k - 1)
      case None => None
      case Some(before) => Next(disk, before)
  }

  /** The chain from a level has at most `depth` boot records. */
  predicate Ends(disk: Disk, level: Level, depth: nat)
    decreases depth
  {
    depth > 0 && (Next(disk, level).None? || Ends(disk, Next(disk, level).value, depth - 1))
  }

  /** All partitions of the boot records of a chain, in the order of the walk. */
  function Collect(disk: Disk, level: Level, depth: nat): seq<PartitionInformation>
    decreases depth
  {
    if depth == 0 then []
    else
      PartitionsOf(disk, level)
      + if Next(disk, level).None? then [] else Collect(disk, Next(disk, level).value, depth - 1)
  }

  /** The status is that of the last boot record. */
  function FinalStatus(disk: Disk, level: Level, depth: nat): Status
    decreases depth
  {
    if depth == 0 then Success
    else if Next(disk, level).None? then ErrorOf(disk, level)
    else FinalStatus(disk, Next(disk, level).value, depth - 1)
  }

  /**
   Links are relative to the first extended partition: each boot record after the master is found at the
   address in the link before it, counted from the extended partition that the master names.
   */
  lemma {:induction false} LinksAreRelativeToTheFirst(disk: Disk, k: nat)
    requires k > 0 && LevelAt(disk, MASTER, k).Some?
    ensures LevelAt(disk, MASTER, k - 1).Some? && LevelAt(disk, MASTER, 1).Some?
    ensures
      var before, level := LevelAt(disk, MASTER, k - 1).value, LevelAt(disk, MASTER, k).value;
      var first := LevelAt(disk, MASTER, 1).value.FirstExtendedPartitionLBA;
      && level.ExtendedPartition && level.FirstExtendedPartitionLBA == first
      && disk.At(before.DiskOffset).BootRecord?
      && exists j: nat ::
           && Reached(before, disk.At(before.DiskOffset).Partitions, 0, j)
           && var e := disk.At(before.DiskOffset).Partitions[j];
              && e.IsExtended() && (k == 1 ==> first == e.FirstSectorLBA)
              && level.DiskOffset == (e.FirstSectorLBA + if k == 1 then 0 else first) % DWORD_VALUES
  {
    if k <= 1 {
    } else {
      LinksAreRelativeToTheFirst(disk, k - 1);
    }
    var before := LevelAt(disk, MASTER, k - 1).value;
    LinkIsTheFirstExtended(before, disk.At(before.DiskOffset).Partitions, 0);
  }

  // ---------------------------------------------------------------------------------------------
  // Which chains end
  // ---------------------------------------------------------------------------------------------

  lemma {:induction false} LevelAfter(disk: Disk, level: Level, i: nat, m: nat)
    requires LevelAt(disk, level, i).Some?
    ensures LevelAt(disk, level, i + m) == LevelAt(disk, LevelAt(disk, level, i).value, m)
  {
    if m == 0 {
    } else {
      LevelAfter(disk, level, i, m - 1);
    }
  }

  lemma {:induction false} EarlierLevels(disk: Disk, level: Level, i: nat, k: nat)
    requires i <= k && LevelAt(disk, level, k).Some?
    ensures LevelAt(disk, level, i).Some?
  {
    if i >= k {
    } else {
      EarlierLevels(disk, level, i, k - 1);
    }
  }

  /** A chain ends within a depth exactly when no level is reached at that depth. */
  lemma {:induction false} EndsExactly(disk: Disk, level: Level, depth: nat)
    ensures Ends(disk, level, depth) <==> LevelAt(disk, level, depth).None?
    decreases depth
  {
    if depth == 0 {
    } else {
      if Next(disk, level).Some? {
        assert LevelAt(disk, level, 1) == Next(disk, level) by {
          assert LevelAt(disk, level, 0) == Some(level);
        }
        LevelAfter(disk, level, 1, depth - 1);
        EndsExactly(disk, Next(disk, level).value, depth - 1);
      } else if LevelAt(disk, level, depth).Some? {
        assert LevelAt(disk, level, 0) == Some(level);
        EarlierLevels(disk, level, 1, depth);
        assert false;
      }
    }
  }

  /** No boot record is reached twice. */
  ghost predicate Acyclic(disk: Disk) {
    forall j: nat, k: nat :: j < k && LevelAt(disk, MASTER, k).Some?
                             ==> LevelAt(disk, MASTER, j) != LevelAt(disk, MASTER, k)
  }

  /** Once a level repeats the chain goes on forever. */
  lemma {:induction false} RepeatsForever(disk: Disk, j: nat, k: nat, n: nat)
    requires j < k && LevelAt(disk, MASTER, k).Some? && LevelAt(disk, MASTER, j) == LevelAt(disk, MASTER, k)
    ensures LevelAt(disk, MASTER, n).Some?
  {
    if n <= k {
      EarlierLevels(disk, MASTER, n, k);
    } else {
      RepeatsForever(disk, j, k, n - (k - j));
      LevelAfter(disk, MASTER, k, n - k);
      LevelAfter(disk, MASTER, j, n - k);
    }
  }

  /** The walk is finite exactly on the disks whose chain of extended partitions is acyclic. */
  lemma WalkEndsExactly(disk: Disk)
    ensures Acyclic(disk) <==> exists depth :: Ends(disk, MASTER, depth)
  {
    hide Ends;
    hide Next;
    hide LevelAt;
    var most := DWORD_VALUES + 1;
    EndsExactly(disk, MASTER, most + 1);
    if Acyclic(disk) && LevelAt(disk, MASTER, most + 1).Some? {
      forall k: nat | 1 <= k <= most
        ensures LevelAt(disk, MASTER, k).Some?
        ensures LevelAt(disk, MASTER, k).value.DiskOffset < DWORD_VALUES
      {
        EarlierLevels(disk, MASTER, k, most + 1);
        LinksAreRelativeToTheFirst(disk, k);
      }
      var offsets := seq(most, i requires 0 <= i < most => LevelAt(disk, MASTER, i + 1).value.DiskOffset);
      forall i, j | 0 <= i < j < most
        ensures offsets[i] != offsets[j]
      {
        LinksAreRelativeToTheFirst(disk, i + 1);
        LinksAreRelativeToTheFirst(disk, j + 1);
        assert LevelAt(disk, MASTER, i + 1) != LevelAt(disk, MASTER, j + 1);
      }
      Pigeonhole(offsets, DWORD_VALUES);
    }
    if !Acyclic(disk) {
      var j: nat, k: nat :| j < k && LevelAt(disk, MASTER, k).Some?
                            && LevelAt(disk, MASTER, j) == LevelAt(disk, MASTER, k);
      forall depth
        ensures !Ends(disk, MASTER, depth)
      {
        EndsExactly(disk, MASTER, depth);
        RepeatsForever(disk, j, k, depth);
      }
    }
  }

  // ---------------------------------------------------------------------------------------------
  // When the walk stops
  // ---------------------------------------------------------------------------------------------

  lemma {:induction false} NeverStopsInside(disk: Disk, level: Level, depth: nat)
    requires Ends(disk, level, depth) && level.ExtendedPartition && level.FirstExtendedPartitionLBA != 0
    ensures FinalStatus(disk, level, depth) != Stopped
    decreases depth
  {
    if Next(disk, level).None? {
    } else {
      LinkIsTheFirstExtended(level, disk.At(level.DiskOffset).Partitions, 0);
      NeverStopsInside(disk, Next(disk, level).value, depth - 1);
    }
  }

  /** The ASSERT on the arguments fires exactly when the master boot record has a link that starts at LBA 0. */
  lemma StopsExactly(disk: Disk, depth: nat)
    requires Ends(disk, MASTER, depth)
    ensures FinalStatus(disk, MASTER, depth) == Stopped
            <==> Next(disk, MASTER).Some? && Next(disk, MASTER).value.FirstExtendedPartitionLBA == 0
  {
    if Next(disk, MASTER).Some? {
      var next := Next(disk, MASTER).value;
      LinkIsTheFirstExtended(MASTER, disk.At(0).Partitions, 0);
      if next.FirstExtendedPartitionLBA == 0 {
        assert ErrorOf(disk, next) == Stopped && Next(disk, next).None?;
      } else {
        NeverStopsInside(disk, next, depth - 1);
      }
    }
  }

  // ---------------------------------------------------------------------------------------------
  // Where the slots come from
  // ---------------------------------------------------------------------------------------------

  /** How many partitions the first k boot records of a chain list. */
  function Before(disk: Disk, level: Level, k: nat): nat {
    if k == 0 then 0
    else
      Before(disk, level, k - 1)
      + match LevelAt(disk, level, k - 1)
        case None => 0
        case Some(l) => |PartitionsOf(disk, l)|
  }

  lemma {:induction false} BeforeShifts(disk: Disk, level: Level, k: nat)
    requires Next(disk, level).Some?
    ensures Before(disk, level, k + 1) == |PartitionsOf(disk, level)| + Before(disk, Next(disk, level).value, k)
  {
    assert LevelAt(disk, level, 0) == Some(level) && LevelAt(disk, level, 1) == Next(disk, level);
    if k > 0 {
      BeforeShifts(disk, level, k - 1);
      LevelAfter(disk, level, 1, k - 1);
    } else {
      assert Before(disk, level, 0) == 0 && Before(disk, Next(disk, level).value, 0) == 0;
    }
  }

  lemma SliceBehind<T>(a: seq<T>, b: seq<T>, from: nat, to: nat)
    requires from <= to <= |b|
    ensures (a + b)[|a| + from..|a| + to] == b[from..to]
  {
  }

  /** The k-th boot record fills the slots that follow those of the records before it, in its own order. */
  lemma {:induction false} SlotsOfLevel(disk: Disk, level: Level, depth: nat, k: nat)
    requires Ends(disk, level, depth) && LevelAt(disk, level, k).Some?
    ensures
      var slots := PartitionsOf(disk, LevelAt(disk, level, k).value);
      var from := Before(disk, level, k);
      && from + |slots| <= |Collect(disk, level, depth)|
      && Collect(disk, level, depth)[from..from + |slots|] == slots
    decreases depth
  {
    hide PartitionsOf;
    hide Next;
    if k == 0 {
    } else {
      EarlierLevels(disk, level, 1, k);
      assert LevelAt(disk, level, 0) == Some(level) && LevelAt(disk, level, 1) == Next(disk, level);
      LevelAfter(disk, level, 1, k - 1);
      BeforeShifts(disk, level, k - 1);
      var rest := Next(disk, level).value;
      SlotsOfLevel(disk, rest, depth - 1, k - 1);
      var own, others := PartitionsOf(disk, level), Collect(disk, rest, depth - 1);
      var from := Before(disk, rest, k - 1);
      SliceBehind(own, others, from, from + |PartitionsOf(disk, LevelAt(disk, level, k).value)|);
    }
  }

  /** And there are no other slots. */
  lemma {:induction false} AllSlots(disk: Disk, level: Level, depth: nat)
    requires Ends(disk, level, depth)
    ensures |Collect(disk, level, depth)| == Before(disk, level, depth)
    decreases depth
  {
    assert LevelAt(disk, level, 0) == Some(level);
    if Next(disk, level).Some? {
      AllSlots(disk, Next(disk, level).value, depth - 1);
      BeforeShifts(disk, level, depth - 1);
    } else {
      NothingAfterTheLast(disk, level, depth);
    }
  }

  lemma {:induction false} NothingAfterTheLast(disk: Disk, level: Level, k: nat)
    requires Next(disk, level).None? && k > 0
    ensures LevelAt(disk, level, k).None? && Before(disk, level, k) == |PartitionsOf(disk, level)|
  {
    assert LevelAt(disk, level, 0) == Some(level) && Before(disk, level, 0) == 0;
    if k <= 1 {
    } else {
      NothingAfterTheLast(disk, level, k - 1);
    }
  }

  // ---------------------------------------------------------------------------------------------
  // What the slots hold
  // ---------------------------------------------------------------------------------------------

  /** What an entry is, in the numbers of the boot record; and how many entries there are. */
  lemma RolesInNumbers(level: Level, e: Entry)
    ensures
      var zero := e == Entry(0, 0, 0, 0, 0, 0) && level.ExtendedPartition;
      var valid := e.Status == 0 || e.Status == 0x80;
      var extended := e.PartitionType == 5 || e.PartitionType == 15;
      && (RoleOf(level, e).Terminator? <==> zero)
      && (RoleOf(level, e).Invalid? <==> !valid)
      && (RoleOf(level, e).Link? <==> valid && extended)
      && (RoleOf(level, e).Partition? <==> !zero && valid && !extended)
    ensures EntriesToIterateOver(level) == if level.ExtendedPartition then 2 else 4
  {
  }

  /** A slot of the layout that describes an entry of the boot record at `lba`. */
  predicate IsSlotOf(p: PartitionInformation, lba: nat, e: Entry) {
    && (p.Bootable <==> e.Status == 0x80)
    && p.OffsetInDisk == (lba + e.FirstSectorLBA) % 0x1_0000_0000
    && p.PartitionSize == e.NumberOfSectors
    && p.PartitionType == e.PartitionType
  }

  /** How many partitions the entries from i up to j are. */
  function Listed(level: Level, entries: Entries, i: nat, j: nat): nat
    requires i <= j <= MBR_NO_OF_PARTITIONS
    decreases j - i
  {
    if i == j then 0 else (if RoleOf(level, entries[i]).Partition? then 1 else 0) + Listed(level, entries, i + 1, j)
  }

  /** Entry j is reached from entry 0 on, and is a partition. */
  predicate Lists(level: Level, entries: Entries, j: nat) {
    Reached(level, entries, 0, j) && RoleOf(level, entries[j]).Partition?
  }

  lemma {:induction false} ScanSlot(level: Level, entries: Entries, i: nat, j: nat)
    requires i <= EntriesToIterateOver(level)
    requires Reached(level, entries, i, j) && RoleOf(level, entries[j]).Partition?
    ensures
      var found, n := ScanPartitions(level, entries, i), Listed(level, entries, i, j);
      n < |found| && IsSlotOf(found[n], level.DiskOffset, entries[j])
    decreases j - i
  {
    if i == j {
    } else {
      hide IsSlotOf;
      assert Reached(level, entries, i + 1, j);
      ScanSlot(level, entries, i + 1, j);
    }
  }

  lemma {:induction false} ScanSlotIsListed(level: Level, entries: Entries, i: nat, n: nat) returns (j: nat)
    requires i <= EntriesToIterateOver(level) && n < |ScanPartitions(level, entries, i)|
    ensures Reached(level, entries, i, j) && RoleOf(level, entries[j]).Partition?
    ensures Listed(level, entries, i, j) == n
    decreases EntriesToIterateOver(level) - i
  {
    hide InformationOf;
    if RoleOf(level, entries[i]).Partition? && n == 0 {
      j := i;
    } else {
      j := ScanSlotIsListed(level, entries, i + 1, if RoleOf(level, entries[i]).Partition? then n - 1 else n);
      assert Reached(level, entries, i, j);
    }
  }

  /** Where an entry of the k-th boot record goes. */
  function SlotOf(disk: Disk, k: nat, j: nat): nat
    requires LevelAt(disk, MASTER, k).Some? && j < MBR_NO_OF_PARTITIONS
  {
    var level := LevelAt(disk, MASTER, k).value;
    match disk.At(level.DiskOffset)
    case Unreadable => 0
    case BootRecord(entries, _) => Before(disk, MASTER, k) + Listed(level, entries, 0, j)
  }

  /** Entry j of the k-th boot record is a partition of the disk. */
  predicate OnDisk(disk: Disk, k: nat, j: nat) {
    match LevelAt(disk, MASTER, k)
    case None => false
    case Some(level) => ErrorOf(disk, level) == Success && Lists(level, disk.At(level.DiskOffset).Partitions, j)
  }

  /** Every partition of the disk has its slot, behind those of earlier records and earlier entries. */
  lemma EntryHasItsSlot(disk: Disk, depth: nat, k: nat, j: nat)
    requires Ends(disk, MASTER, depth) && OnDisk(disk, k, j)
    ensures
      var lba := LevelAt(disk, MASTER, k).value.DiskOffset;
      var slot := SlotOf(disk, k, j);
      && slot < |Collect(disk, MASTER, depth)|
      && IsSlotOf(Collect(disk, MASTER, depth)[slot], lba, disk.At(lba).Partitions[j])
      && (k == 0 ==> lba == 0)
  {
    hide IsSlotOf;
    hide Collect;
    hide RoleOf;
    var level := LevelAt(disk, MASTER, k).value;
    var entries := disk.At(level.DiskOffset).Partitions;
    ScanSlot(level, entries, 0, j);
    SlotsOfLevel(disk, MASTER, depth, k);
    var slots, from := PartitionsOf(disk, level), Before(disk, MASTER, k);
    assert Collect(disk, MASTER, depth)[from..from + |slots|][Listed(level, entries, 0, j)]
        == Collect(disk, MASTER, depth)[from + Listed(level, entries, 0, j)];
  }

  /** Every slot is that of a partition of the disk. */
  lemma SlotHasItsEntry(disk: Disk, depth: nat, slot: nat) returns (k: nat, j: nat)
    requires Ends(disk, MASTER, depth) && slot < |Collect(disk, MASTER, depth)|
    ensures OnDisk(disk, k, j) && SlotOf(disk, k, j) == slot
  {
    hide Collect;
    hide RoleOf;
    hide ScanPartitions;
    AllSlots(disk, MASTER, depth);
    k := RecordOfSlot(disk, depth, slot);
    var level := LevelAt(disk, MASTER, k).value;
    j := ScanSlotIsListed(level, disk.At(level.DiskOffset).Partitions, 0, slot - Before(disk, MASTER, k));
  }

  lemma {:induction false} RecordOfSlot(disk: Disk, n: nat, slot: nat) returns (k: nat)
    requires slot < Before(disk, MASTER, n)
    ensures LevelAt(disk, MASTER, k).Some? && Before(disk, MASTER, k) <= slot
    ensures slot < Before(disk, MASTER, k) + |PartitionsOf(disk, LevelAt(disk, MASTER, k).value)|
  {
    hide PartitionsOf;
    hide LevelAt;
    k := n - 1;
    if slot < Before(disk, MASTER, k) {
      k := RecordOfSlot(disk, k, slot);
    }
  }

  /** Whether a boot record is looked at, and if not, why: the arguments, the device, or its signature. */
  predicate Decides(disk: Disk, last: Level, status: Status) {
    var record := disk.At(last.DiskOffset);
    if last.ExtendedPartition == (last.FirstExtendedPartitionLBA == 0) then status == Stopped
    else if record.Unreadable? then status == ReadFailed
    else if record.BootSignature != 0xAA55 then status == MbrNotPresent
    else status == Success
  }

  lemma ErrorInNumbers(disk: Disk, level: Level)
    ensures Decides(disk, level, ErrorOf(disk, level))
  {
  }

  /** Entry j of the k-th boot record leads on. */
  predicate LeadsOn(disk: Disk, k: nat, j: nat) {
    match LevelAt(disk, MASTER, k)
    case None => false
    case Some(level) =>
      && ErrorOf(disk, level) == Success
      && Reached(level, disk.At(level.DiskOffset).Partitions, 0, j)
      && RoleOf(level, disk.At(level.DiskOffset).Partitions[j]).Link?
  }

  /** A link that is reached is followed: the next boot record is at its address, counted from the first
      extended partition, which the link of the master boot record names. */
  lemma LinkIsFollowed(disk: Disk, k: nat, j: nat)
    requires LeadsOn(disk, k, j)
    ensures
      var level := LevelAt(disk, MASTER, k).value;
      var lba := disk.At(level.DiskOffset).Partitions[j].FirstSectorLBA;
      var first := level.FirstExtendedPartitionLBA;
      LevelAt(disk, MASTER, k + 1)
      == Some(Level((lba + first) % 0x1_0000_0000, true, if level.ExtendedPartition then first else lba))
  {
    var level := LevelAt(disk, MASTER, k).value;
    LinkIsTheFirstExtended(level, disk.At(level.DiskOffset).Partitions, 0);
  }

  /** And without one the chain ends. */
  lemma NoLinkEnds(disk: Disk, k: nat)
    requires LevelAt(disk, MASTER, k).Some? && forall j: nat :: !LeadsOn(disk, k, j)
    ensures LevelAt(disk, MASTER, k + 1).None?
  {
    hide RoleOf;
    var level := LevelAt(disk, MASTER, k).value;
    if ErrorOf(disk, level) == Success {
      var entries := disk.At(level.DiskOffset).Partitions;
      LinkIsTheFirstExtended(level, entries, 0);
      if ScanLink(level, entries, 0).Some? {
        var j: nat :| Reached(level, entries, 0, j) && RoleOf(level, entries[j]).Link?;
        var met := LeadsOn(disk, k, j);
      }
    }
  }

  /** The status is that of the last boot record, which is reached and leads no further. */
  lemma {:induction false} LastRecordDecides(disk: Disk, level: Level, depth: nat) returns (k: nat)
    requires Ends(disk, level, depth) && (level.ExtendedPartition || level == MASTER)
    ensures LevelAt(disk, level, k).Some? && Next(disk, LevelAt(disk, level, k).value).None?
    ensures Decides(disk, LevelAt(disk, level, k).value, FinalStatus(disk, level, depth))
    decreases depth
  {
    assert LevelAt(disk, level, 0) == Some(level) && LevelAt(disk, level, 1) == Next(disk, level);
    if Next(disk, level).None? {
      k := 0;
    } else {
      var next := Next(disk, level).value;
      LinkIsTheFirstExtended(level, disk.At(level.DiskOffset).Partitions, 0);
      k := LastRecordDecides(disk, next, depth - 1);
      LevelAfter(disk, level, 1, k);
      k := k + 1;
    }
  }

  // ---------------------------------------------------------------------------------------------
  // The two passes
  // ---------------------------------------------------------------------------------------------

  /** sizeof(DISK_LAYOUT_INFORMATION) and sizeof(PARTITION_INFORMATION). */
  const LAYOUT_BYTES: nat := 8
  const PARTITION_BYTES: nat := 24

  /** structureSize, a DWORD. */
  function StructureSize(partitionCount: nat): nat {
    (LAYOUT_BYTES + partitionCount * PARTITION_BYTES) % DWORD_VALUES
  }

  /** How many partitions an allocation of that many bytes has room for. */
  function Slots(structureSize: nat): nat {
    if structureSize < LAYOUT_BYTES then 0 else (structureSize - LAYOUT_BYTES) / PARTITION_BYTES
  }

  /** The structure has room for as many partitions as were counted exactly when its size fits in a DWORD. */
  lemma RoomForAllExactly(partitionCount: nat)
    ensures Slots(StructureSize(partitionCount)) >= partitionCount
            <==> partitionCount == 0 || 8 + partitionCount * 24 < 0x1_0000_0000
  {
    var bytes := LAYOUT_BYTES + partitionCount * PARTITION_BYTES;
    if bytes < DWORD_VALUES {
      assert StructureSize(partitionCount) == bytes;
    } else {
      assert StructureSize(partitionCount) < bytes - PARTITION_BYTES;
    }
  }

  class DiskLayoutInformation {
    var NumberOfPartitions: nat
    var Partitions: array<PartitionInformation>

    /** The allocation, zeroed. */
    constructor (structureSize: nat)
      ensures fresh(Partitions) && Partitions.Length == Slots(structureSize) && NumberOfPartitions == 0
    {
      NumberOfPartitions := 0;
      Partitions := new PartitionInformation[Slots(structureSize)];
    }

    /** Fills one more slot; the slots from `from` on are those filled so far. */
    method Store(slot: nat, p: PartitionInformation, ghost was: seq<PartitionInformation>, ghost from: nat)
      requires from <= slot < Partitions.Length && Untouched(was, Partitions[..], from, slot)
      modifies Partitions
      ensures Partitions[from..slot + 1] == old(Partitions[from..slot]) + [p]
      ensures Untouched(was, Partitions[..], from, slot + 1)
    {
      hide Untouched;
      ghost var before := Partitions[..];
      UntouchedOneMore(was, before, from, slot, p);
      Partitions[slot] := p;
      assert Partitions[..] == before[slot := p];
    }
  }

  ghost function Frame(layout: DiskLayoutInformation?): set<object>
    reads layout
  {
    if layout == null then {} else {layout.Partitions}
  }

  /** _DiskRetrievePartitionsFromDiskStartingAtOffset: counts, and fills the layout when there is one. */
  method RetrieveStartingAtOffset(disk: Disk, level: Level, partitionCount: nat, layout: DiskLayoutInformation?,
                                  ghost depth: nat)
    returns (status: Status, newCount: nat)
    requires Ends(disk, level, depth)
    requires partitionCount + |Collect(disk, level, depth)| < DWORD_VALUES
    requires layout != null ==> partitionCount + |Collect(disk, level, depth)| <= layout.Partitions.Length
    modifies Frame(layout)
    ensures status == FinalStatus(disk, level, depth)
    ensures newCount == partitionCount + |Collect(disk, level, depth)|
    ensures layout != null
            ==> && layout.Partitions[partitionCount..newCount] == Collect(disk, level, depth)
                && Untouched(old(layout.Partitions[..]), layout.Partitions[..], partitionCount, newCount)
    decreases depth
  {
    hide Ends;
    hide Collect;
    hide FinalStatus;
    hide ScanPartitions;
    hide ScanLink;
    hide LinkedLevel;
    hide InformationOf;
    hide Untouched;
    Unfolded(disk, level, depth);
    newCount, status := partitionCount, Success;
    ghost var was := if layout == null then [] else layout.Partitions[..];
    UntouchedAtFirst(was, partitionCount);
    if level.ExtendedPartition == (level.FirstExtendedPartitionLBA == 0) {
      status := Stopped;
      return;
    }
    var mbr := disk.At(level.DiskOffset);
    if mbr.Unreadable? {
      status := ReadFailed;
      return;
    }
    if mbr.BootSignature != MBR_BOOT_SIGNATURE {
      status := MbrNotPresent;
      return;
    }
    var entries := mbr.Partitions;
    ghost var found: seq<PartitionInformation> := [];
    var currentPartition := 0;
    while currentPartition < EntriesToIterateOver(level)
      invariant currentPartition <= EntriesToIterateOver(level)
      invariant newCount == partitionCount + |found|
      invariant PartitionsOf(disk, level) == found + ScanPartitions(level, entries, currentPartition)
      invariant Next(disk, level) == ScanLink(level, entries, currentPartition)
      invariant layout != null ==> layout.Partitions[partitionCount..newCount] == found
      invariant layout != null ==> Untouched(was, layout.Partitions[..], partitionCount, newCount)
      decreases EntriesToIterateOver(level) - currentPartition
    {
      ScanStep(level, entries, currentPartition);
      var entry := entries[currentPartition];
      if level.ExtendedPartition && entry.IsZero() {
        return;
      }
      if !entry.HasValidStatus() {
        currentPartition := currentPartition + 1;
        continue;
      }
      if entry.IsExtended() {
        ghost var mid := if layout == null then [] else layout.Partitions[..];
        ghost var between := newCount;
        status, newCount := RetrieveStartingAtOffset(disk, LinkedLevel(level, entry), newCount, layout, depth - 1);
        if layout != null {
          UntouchedTwice(was, mid, layout.Partitions[..], partitionCount, between, newCount);
        }
        return;
      }
      if layout != null {
        layout.Store(newCount, InformationOf(level, entry), was, partitionCount);
      }
      OneMoreFound(found, InformationOf(level, entry), ScanPartitions(level, entries, currentPartition + 1));
      found := found + [InformationOf(level, entry)];
      newCount := newCount + 1;
      currentPartition := currentPartition + 1;
    }
    ScanStep(level, entries, currentPartition);
  }

  /** Nothing but the slots [from, to) differs. */
  predicate Untouched(was: seq<PartitionInformation>, now: seq<PartitionInformation>, from: nat, to: nat) {
    |was| == |now| && forall i :: 0 <= i < |was| && (i < from || to <= i) ==> now[i] == was[i]
  }

  lemma OneMoreFound<T>(found: seq<T>, p: T, rest: seq<T>)
    ensures found + ([p] + rest) == (found + [p]) + rest
  {
  }

  lemma UntouchedAtFirst(now: seq<PartitionInformation>, from: nat)
    ensures Untouched(now, now, from, from)
  {
  }

  lemma UntouchedOneMore(was: seq<PartitionInformation>, now: seq<PartitionInformation>, from: nat, to: nat,
                         p: PartitionInformation)
    requires Untouched(was, now, from, to) && from <= to < |now|
    ensures Untouched(was, now[to := p], from, to + 1)
    ensures now[to := p][from..to + 1] == now[from..to] + [p]
  {
  }

  lemma UntouchedTwice(was: seq<PartitionInformation>, mid: seq<PartitionInformation>,
                       now: seq<PartitionInformation>, from: nat, between: nat, to: nat)
    requires from <= between <= to <= |now| && Untouched(was, mid, from, between) && Untouched(mid, now, between, to)
    ensures Untouched(was, now, from, to)
    ensures |mid| == |now| && now[from..to] == mid[from..between] + now[between..to]
  {
  }

  lemma Unfolded(disk: Disk, level: Level, depth: nat)
    requires Ends(disk, level, depth)
    ensures
      depth > 0
      && if Next(disk, level).None? then
           && Collect(disk, level, depth) == PartitionsOf(disk, level)
           && FinalStatus(disk, level, depth) == ErrorOf(disk, level)
         else
           var next := Next(disk, level).value;
           && Ends(disk, next, depth - 1)
           && Collect(disk, level, depth) == PartitionsOf(disk, level) + Collect(disk, next, depth - 1)
           && FinalStatus(disk, level, depth) == FinalStatus(disk, next, depth - 1)
  {
  }

  lemma ScanStep(level: Level, entries: Entries, i: nat)
    requires i <= EntriesToIterateOver(level)
    ensures
      var found, link := ScanPartitions(level, entries, i), ScanLink(level, entries, i);
      if i == EntriesToIterateOver(level) then found == [] && link == None
      else
        match RoleOf(level, entries[i])
        case Terminator => found == [] && link == None
        case Link => found == [] && link == Some(LinkedLevel(level, entries[i]))
        case Invalid => found == ScanPartitions(level, entries, i + 1) && link == ScanLink(level, entries, i + 1)
        case Partition =>
          && found == [InformationOf(level, entries[i])] + ScanPartitions(level, entries, i + 1)
          && link == ScanLink(level, entries, i + 1)
  {
  }

  class DiskObject {
    const disk: Disk
    var DiskLayout: DiskLayoutInformation?

    constructor (disk: Disk)
      ensures this.disk == disk && DiskLayout == null
    {
      this.disk := disk;
      DiskLayout := null;
    }

    /**
     _DiskRetrievePartitionsFromDisk: a counting pass, a structure of that size, and a filling pass. None:
     the size wrapped, and the filling pass would write past the structure.
     */
    method RetrievePartitionsFromDisk(ghost depth: nat) returns (result: Option<Status>)
      requires Ends(disk, MASTER, depth) && |Collect(disk, MASTER, depth)| < DWORD_VALUES
      modifies this
      ensures result.None?
              <==> && FinalStatus(disk, MASTER, depth) == Success && Collect(disk, MASTER, depth) != []
                   && 8 + |Collect(disk, MASTER, depth)| * 24 >= 0x1_0000_0000
      ensures result.Some? ==> result.value == FinalStatus(disk, MASTER, depth)
      ensures result != Some(Success) ==> DiskLayout == old(DiskLayout)
      ensures result == Some(Success)
              ==> && DiskLayout != null && fresh(DiskLayout)
                  && DiskLayout.Partitions[..] == Collect(disk, MASTER, depth)
                  && DiskLayout.NumberOfPartitions == DiskLayout.Partitions.Length
    {
      var status, partitionCount := RetrieveStartingAtOffset(disk, MASTER, 0, null, depth);
      if status != Success {
        return Some(status);
      }
      var structureSize := StructureSize(partitionCount);
      RoomForAllExactly(partitionCount);
      if Slots(structureSize) < partitionCount {
        return None;
      }
      var information := new DiskLayoutInformation(structureSize);
      status, partitionCount := RetrieveStartingAtOffset(disk, MASTER, 0, information, depth);
      if status != Success {
        return Some(status);
      }
      information.NumberOfPartitions := partitionCount;
      DiskLayout := information;
      return Some(Success);
    }
  }
}
