/**
 The PRD table of a DMA transfer: the loop of _AtaPrepareDmaTransfer in Ata/src/ata_operations.c, which
 turns the scatter list of a buffer into physical region descriptors ("Programming Interface for Bus
 Master IDE Controller", revision 1.0, section 1.2).
 */
module PrdTable {
  import opened Basics
  import opened MachineWords

  const SECTOR_SIZE: nat := 512
  const ATA_DMA_PHYSICAL_BOUNDARY: nat := 0x1_0000
  const ATA_DMA_MAX_PHYSICAL_LEN: nat := ATA_DMA_PHYSICAL_BOUNDARY - 1
  const ATA_DMA_ALIGNMENT: nat := 4

  datatype Status = AddressTooHigh | AlignmentError | SpanTooLarge

  /** MDL_TRANSLATION_PAIR: a QWORD and a DWORD. */
  datatype Pair = Pair(Address: nat, NumberOfBytes: nat) {
    predicate IsWords() {
      Address < QWORD_VALUES && NumberOfBytes < DWORD_VALUES
    }
  }

  /** PRD_ENTRY: a DWORD, a WORD and a flag. */
  datatype Entry = Entry(PhysicalAddress: nat, ByteCount: nat, LastEntry: bool)

  // ---------------------------------------------------------------------------------------------
  // What a table and a scatter list mean: the physical addresses that are transferred, in order
  // ---------------------------------------------------------------------------------------------

  function Span(address: nat, count: nat): seq<nat> {
    seq(count, i requires 0 <= i => address + i)
  }

  /** A byte count of 0 stands for 64 KiB. */
  function EntryBytes(e: Entry): nat {
    if e.ByteCount == 0 then ATA_DMA_PHYSICAL_BOUNDARY else e.ByteCount
  }

  /** All that the entries of a table describe. */
  function Described(table: seq<Entry>): seq<nat> {
    if table == [] then [] else Span(table[0].PhysicalAddress, EntryBytes(table[0])) + Described(table[1..])
  }

  /**
   The controller works through the table up to the entry that is flagged as the last. None: there is no
   such entry, and it runs on behind the table.
   */
  function Transferred(table: seq<Entry>): Option<seq<nat>> {
    if table == [] then None
    else
      var head := Span(table[0].PhysicalAddress, EntryBytes(table[0]));
      if table[0].LastEntry then Some(head)
      else
        match Transferred(table[1..])
        case None => None
        case Some(tail) => Some(head + tail)
  }

  function Scatter(pairs: seq<Pair>): (addresses: seq<nat>)
    ensures |addresses| == TotalBytes(pairs)
  {
    if pairs == [] then [] else Span(pairs[0].Address, pairs[0].NumberOfBytes) + Scatter(pairs[1..])
  }

  // ---------------------------------------------------------------------------------------------
  // What the loop puts into the table
  // ---------------------------------------------------------------------------------------------

  /** _AtaValidateTranslationPair. */
  function Validate(pair: Pair): Option<Status> {
    if pair.Address > MAX_DWORD then Some(AddressTooHigh)
    else if pair.Address % ATA_DMA_ALIGNMENT != 0 then Some(AlignmentError)
    else if pair.NumberOfBytes > ATA_DMA_MAX_PHYSICAL_LEN then Some(SpanTooLarge)
    else if pair.NumberOfBytes % ATA_DMA_ALIGNMENT != 0 then Some(AlignmentError)
    else None
  }

  /** What the validation asks, in this order: below 4 GiB, on a DWORD boundary, at most 65535 bytes, whole DWORDs. */
  lemma ValidateExactly(pair: Pair)
    ensures
      Validate(pair)
      == if pair.Address >= 0x1_0000_0000 then Some(AddressTooHigh)
         else if pair.Address % 4 != 0 then Some(AlignmentError)
         else if pair.NumberOfBytes >= 0x1_0000 then Some(SpanTooLarge)
         else if pair.NumberOfBytes % 4 != 0 then Some(AlignmentError)
         else None
  {
  }

  function AlignLower(address: nat): nat {
    address - address % ATA_DMA_PHYSICAL_BOUNDARY
  }

  /** IsInSameBoundary; the end is computed on a QWORD. */
  predicate IsInSameBoundary(address: nat, size: nat) {
    AlignLower(address) == AlignLower((address + size - 1) % QWORD_VALUES)
  }

  /** The one or two entries for a pair of which `count` bytes are used. */
  function EntriesFor(address: nat, count: nat): (entries: seq<Entry>)
    ensures 1 <= |entries| <= 2
  {
    if IsInSameBoundary(address, count) then [Entry(address % DWORD_VALUES, count, false)]
    else
      var first := (ATA_DMA_PHYSICAL_BOUNDARY - address % ATA_DMA_PHYSICAL_BOUNDARY) % WORD_VALUES;
      [Entry(address % DWORD_VALUES, first, false),
       Entry((address + first) % DWORD_VALUES, (count - first) % WORD_VALUES, false)]
  }

  /** The part of a scatter list that serves a transfer of `total` bytes. */
  function Clip(pairs: seq<Pair>, total: nat): seq<Pair> {
    if pairs == [] then []
    else
      var used := Min(pairs[0].NumberOfBytes, total);
      [pairs[0].(NumberOfBytes := used)] + Clip(pairs[1..], total - used)
  }

  function EntriesOf(pairs: seq<Pair>): seq<Entry> {
    if pairs == [] then [] else EntriesFor(pairs[0].Address, pairs[0].NumberOfBytes) + EntriesOf(pairs[1..])
  }

  function MarkLast(table: seq<Entry>): seq<Entry>
    requires table != []
  {
    table[|table| - 1 := table[|table| - 1].(LastEntry := true)]
  }

  function TotalBytes(pairs: seq<Pair>): nat {
    if pairs == [] then 0 else pairs[0].NumberOfBytes + TotalBytes(pairs[1..])
  }

  predicate AllValid(pairs: seq<Pair>) {
    forall i :: 0 <= i < |pairs| ==> Validate(pairs[i]).None?
  }

  /** A pair that the hardware can be told about: not empty, and ending below 4 GiB. */
  predicate Describable(pair: Pair) {
    0 < pair.NumberOfBytes && pair.Address + pair.NumberOfBytes <= DWORD_VALUES
  }

  predicate AllDescribable(pairs: seq<Pair>) {
    forall i :: 0 <= i < |pairs| ==> Describable(pairs[i])
  }

  // ---------------------------------------------------------------------------------------------
  // The table transfers the scatter list
  // ---------------------------------------------------------------------------------------------

  predicate NoneLast(table: seq<Entry>) {
    forall i :: 0 <= i < |table| ==> !table[i].LastEntry
  }

  lemma {:induction false} DescribedParts(a: seq<Entry>, b: seq<Entry>)
    ensures Described(a + b) == Described(a) + Described(b)
  {
    if a == [] {
      assert a + b == b;
    } else {
      assert (a + b)[1..] == a[1..] + b;
      DescribedParts(a[1..], b);
    }
  }

  /** The last entry is flagged and no other; addresses and counts stay. */
  lemma MarksTheLast(table: seq<Entry>)
    requires table != [] && NoneLast(table)
    ensures |MarkLast(table)| == |table|
    ensures forall i :: 0 <= i < |table| ==>
              && (MarkLast(table)[i].LastEntry <==> i == |table| - 1)
              && MarkLast(table)[i].PhysicalAddress == table[i].PhysicalAddress
              && MarkLast(table)[i].ByteCount == table[i].ByteCount
  {
  }

  /** With its last entry flagged a table ends, and all that it describes is transferred. */
  lemma {:induction false} TransferredMarked(table: seq<Entry>)
    requires table != [] && NoneLast(table)
    ensures Transferred(MarkLast(table)) == Some(Described(table))
  {
    var marked := MarkLast(table);
    if |table| == 1 {
      assert Described(table[1..]) == [];
      assert Described(table) == Span(table[0].PhysicalAddress, EntryBytes(table[0]));
    } else {
      assert marked[1..] == MarkLast(table[1..]);
      TransferredMarked(table[1..]);
    }
  }

  lemma DescribedOne(address: nat, count: nat)
    ensures Described([Entry(address, count, false)]) == Span(address, EntryBytes(Entry(address, count, false)))
  {
    assert [Entry(address, count, false)][1..] == [];
  }

  lemma DescribedTwo(a: Entry, b: Entry)
    ensures Described([a, b])
         == Span(a.PhysicalAddress, EntryBytes(a)) + Span(b.PhysicalAddress, EntryBytes(b))
  {
    assert [a, b] == [a] + [b];
    DescribedParts([a], [b]);
    DescribedOne(a.PhysicalAddress, a.ByteCount);
    DescribedOne(b.PhysicalAddress, b.ByteCount);
  }

  /** How a valid, non-empty pair is described: whole inside a 64 KiB region, or cut at its end. */
  lemma EntriesForPair(pair: Pair)
    requires Validate(pair).None? && pair.NumberOfBytes > 0
    ensures
      var address, count := pair.Address, pair.NumberOfBytes;
      var first := ATA_DMA_PHYSICAL_BOUNDARY - address % ATA_DMA_PHYSICAL_BOUNDARY;
      EntriesFor(address, count)
      == if count <= first then [Entry(address, count, false)]
         else [Entry(address, first, false), Entry((address + first) % DWORD_VALUES, count - first, false)]
  {
    var address, count := pair.Address, pair.NumberOfBytes;
    var low := address % ATA_DMA_PHYSICAL_BOUNDARY;
    var last := address + count - 1;
    assert last % QWORD_VALUES == last;
    if count <= ATA_DMA_PHYSICAL_BOUNDARY - low {
      assert last % ATA_DMA_PHYSICAL_BOUNDARY == low + count - 1;
    } else {
      assert last % ATA_DMA_PHYSICAL_BOUNDARY == low + count - 1 - ATA_DMA_PHYSICAL_BOUNDARY;
    }
  }

  lemma EntriesForEmpty(address: nat)
    requires address < DWORD_VALUES
    ensures EntriesFor(address, 0)[0].ByteCount == 0
  {
  }

  lemma SpanInTwo(address: nat, count: nat, first: nat, next: nat)
    requires 0 < first < count
    ensures Span(address, first) + Span(next, count - first) == Span(address, count) <==> next == address + first
  {
    var both := Span(address, first) + Span(next, count - first);
    assert both[first] == next && Span(address, count)[first] == address + first;
  }

  /** The second entry's address is the right one exactly when the pair ends below 4 GiB. */
  lemma SecondAddress(address: nat, count: nat)
    requires address < DWORD_VALUES && count < WORD_VALUES
    ensures
      var first := ATA_DMA_PHYSICAL_BOUNDARY - address % ATA_DMA_PHYSICAL_BOUNDARY;
      && (count <= first ==> address + count <= DWORD_VALUES)
      && (count > first ==> ((address + first) % DWORD_VALUES == address + first
                             <==> address + count <= DWORD_VALUES))
  {
    var region := address / ATA_DMA_PHYSICAL_BOUNDARY;
    var next := ATA_DMA_PHYSICAL_BOUNDARY * (region + 1);
    assert address + ATA_DMA_PHYSICAL_BOUNDARY - address % ATA_DMA_PHYSICAL_BOUNDARY == next && region < 0x1_0000;
    assert next % DWORD_VALUES == if region == 0xFFFF then 0 else next;
  }

  /** One valid pair: its entries transfer its bytes exactly when the hardware can be told about it. */
  lemma PairTransfers(pair: Pair)
    requires Validate(pair).None?
    ensures
      var t := Described(EntriesFor(pair.Address, pair.NumberOfBytes));
      && (t == Span(pair.Address, pair.NumberOfBytes) <==> Describable(pair))
      && |t| >= pair.NumberOfBytes && (|t| == pair.NumberOfBytes <==> pair.NumberOfBytes > 0)
  {
    hide EntriesFor;
    var address, count := pair.Address, pair.NumberOfBytes;
    var entries := EntriesFor(address, count);
    if count == 0 {
      EntriesForEmpty(address);
      assert |Described(entries)| > 0;
    } else {
      hide Described;
      EntriesForPair(pair);
      SecondAddress(address, count);
      var first := ATA_DMA_PHYSICAL_BOUNDARY - address % ATA_DMA_PHYSICAL_BOUNDARY;
      if count <= first {
        DescribedOne(address, count);
      } else {
        DescribedTwo(entries[0], entries[1]);
        SpanInTwo(address, count, first, entries[1].PhysicalAddress);
      }
    }
  }

  lemma {:induction false} NoEntryIsLast(pairs: seq<Pair>)
    ensures NoneLast(EntriesOf(pairs))
    ensures |pairs| <= |EntriesOf(pairs)| <= 2 * |pairs|
  {
    if pairs == [] {
    } else {
      NoEntryIsLast(pairs[1..]);
    }
  }

  lemma {:induction false} ListTransfers(pairs: seq<Pair>)
    requires AllValid(pairs)
    ensures
      var t := Described(EntriesOf(pairs));
      && (t == Scatter(pairs) <==> AllDescribable(pairs))
      && |t| >= |Scatter(pairs)|
  {
    if pairs == [] {
    } else {
      var rest := pairs[1..];
      var head, tail := EntriesFor(pairs[0].Address, pairs[0].NumberOfBytes), EntriesOf(rest);
      ListTransfers(rest);
      PairTransfers(pairs[0]);
      DescribedParts(head, tail);
      var span := Span(pairs[0].Address, pairs[0].NumberOfBytes);
      if Described(head) + Described(tail) == span + Scatter(rest) {
        assert |Described(head)| == |span|;
        assert (Described(head) + Described(tail))[..|span|] == Described(head);
        assert (span + Scatter(rest))[..|span|] == span;
        assert (Described(head) + Described(tail))[|span|..] == Described(tail);
        assert (span + Scatter(rest))[|span|..] == Scatter(rest);
      }
    }
  }

  lemma {:induction false} ClipTakesThePrefix(pairs: seq<Pair>, total: nat)
    ensures Scatter(Clip(pairs, total)) == Scatter(pairs)[..Min(total, TotalBytes(pairs))]
  {
    if pairs == [] {
    } else {
      var used := Min(pairs[0].NumberOfBytes, total);
      var rest := pairs[1..];
      ClipTakesThePrefix(rest, total - used);
      var clipped := Clip(pairs, total);
      assert clipped[0] == pairs[0].(NumberOfBytes := used) && clipped[1..] == Clip(rest, total - used);
      var span := Span(pairs[0].Address, pairs[0].NumberOfBytes);
      assert Span(pairs[0].Address, used) == span[..used];
      if used < pairs[0].NumberOfBytes {
        assert Scatter(Clip(rest, 0)) == [];
      }
    }
  }

  /** A list that describes no more than the transfer is used as it is. */
  lemma {:induction false} WholeListIsUsed(pairs: seq<Pair>, total: nat)
    requires TotalBytes(pairs) <= total
    ensures Clip(pairs, total) == pairs
  {
    if pairs == [] {
    } else {
      WholeListIsUsed(pairs[1..], total - pairs[0].NumberOfBytes);
    }
  }

  lemma {:induction false} ClipStaysValid(pairs: seq<Pair>, total: nat)
    requires AllValid(pairs) && total % ATA_DMA_ALIGNMENT == 0
    ensures AllValid(Clip(pairs, total)) && |Clip(pairs, total)| == |pairs|
  {
    if pairs == [] {
    } else {
      var used := Min(pairs[0].NumberOfBytes, total);
      assert Validate(pairs[0].(NumberOfBytes := used)).None?;
      ClipStaysValid(pairs[1..], total - used);
    }
  }

  lemma SectorsAreAligned(total: nat)
    requires total % SECTOR_SIZE == 0
    ensures total % ATA_DMA_ALIGNMENT == 0
  {
    assert total == ATA_DMA_ALIGNMENT * (128 * (total / SECTOR_SIZE));
  }

  /**
   The table transfers exactly the first `total` bytes of the scatter list if and only if every pair, cut
   to what is left of the transfer, is non-empty and ends below 4 GiB.
   */
  lemma TableTransfersTheList(pairs: seq<Pair>, total: nat)
    requires pairs != [] && AllValid(pairs) && total % SECTOR_SIZE == 0 && total <= TotalBytes(pairs)
    ensures EntriesOf(Clip(pairs, total)) != []
    ensures Transferred(MarkLast(EntriesOf(Clip(pairs, total)))) == Some(Scatter(pairs)[..total])
            <==> AllDescribable(Clip(pairs, total))
  {
    hide EntriesOf;
    hide Transferred;
    hide Described;
    hide Scatter;
    hide Clip;
    hide Describable;
    hide Validate;
    SectorsAreAligned(total);
    ClipTakesThePrefix(pairs, total);
    ClipStaysValid(pairs, total);
    NoEntryIsLast(Clip(pairs, total));
    TransferredMarked(EntriesOf(Clip(pairs, total)));
    ListTransfers(Clip(pairs, total));
  }

  /** Both ways of being wrong get past the validation: a pair that ends above 4 GiB, and an empty one. */
  lemma ValidationIsNotEnough()
    ensures
      var high := [Pair(0xFFFF_FF00, 512)];
      AllValid(high) && TotalBytes(high) == 512
      && Transferred(MarkLast(EntriesOf(Clip(high, 512)))) != Some(Scatter(high)[..512])
    ensures
      var empty := [Pair(0x1000, 512), Pair(0x2000, 0)];
      AllValid(empty) && TotalBytes(empty) == 512
      && Transferred(MarkLast(EntriesOf(Clip(empty, 512)))) != Some(Scatter(empty)[..512])
  {
    hide EntriesOf;
    hide Transferred;
    var high, empty := [Pair(0xFFFF_FF00, 512)], [Pair(0x1000, 512), Pair(0x2000, 0)];
    assert high[1..] == [] && empty[1..] == [Pair(0x2000, 0)] && empty[1..][1..] == [];
    WholeListIsUsed(high, 512);
    WholeListIsUsed(empty, 512);
    assert !Describable(high[0]) && !Describable(empty[1]);
    TableTransfersTheList(high, 512);
    TableTransfersTheList(empty, 512);
  }

  /** An entry as the controller wants it: whole words, not empty, inside one 64 KiB region. */
  predicate WellFormed(e: Entry) {
    && e.PhysicalAddress < DWORD_VALUES && 0 < e.ByteCount < WORD_VALUES
    && e.PhysicalAddress % ATA_DMA_ALIGNMENT == 0 && e.ByteCount % ATA_DMA_ALIGNMENT == 0
    && e.PhysicalAddress / ATA_DMA_PHYSICAL_BOUNDARY
       == (e.PhysicalAddress + e.ByteCount - 1) / ATA_DMA_PHYSICAL_BOUNDARY
  }

  predicate AllWellFormed(entries: seq<Entry>) {
    forall i :: 0 <= i < |entries| ==> WellFormed(entries[i])
  }

  lemma EntryInsideRegion(address: nat, count: nat, last: bool)
    requires address < DWORD_VALUES && 0 < count <= ATA_DMA_PHYSICAL_BOUNDARY - address % ATA_DMA_PHYSICAL_BOUNDARY
    requires count < WORD_VALUES && address % ATA_DMA_ALIGNMENT == 0 && count % ATA_DMA_ALIGNMENT == 0
    ensures WellFormed(Entry(address, count, last))
  {
    var region, low := address / ATA_DMA_PHYSICAL_BOUNDARY, address % ATA_DMA_PHYSICAL_BOUNDARY;
    assert address + count - 1 == ATA_DMA_PHYSICAL_BOUNDARY * region + (low + count - 1);
  }

  lemma RegionMultiple(k: nat)
    ensures (ATA_DMA_PHYSICAL_BOUNDARY * k) % ATA_DMA_PHYSICAL_BOUNDARY == 0
    ensures (ATA_DMA_PHYSICAL_BOUNDARY * k) % ATA_DMA_ALIGNMENT == 0
  {
    WordMultiple(0x4000 * k);
  }

  lemma WordMultiple(k: nat)
    ensures (ATA_DMA_ALIGNMENT * k) % ATA_DMA_ALIGNMENT == 0
  {
  }

  /** The start of a region as a DWORD: that of the region after the last one is 0. */
  lemma RegionStart(region: nat)
    requires region < 0x1_0000
    ensures ATA_DMA_PHYSICAL_BOUNDARY * (region + 1) % DWORD_VALUES
         == ATA_DMA_PHYSICAL_BOUNDARY * if region == 0xFFFF then 0 else region + 1
  {
    if region == 0xFFFF {
      assert ATA_DMA_PHYSICAL_BOUNDARY * (region + 1) == DWORD_VALUES;
    } else {
      assert ATA_DMA_PHYSICAL_BOUNDARY * (region + 1) < DWORD_VALUES;
    }
  }

  lemma RestOfRegion(address: nat)
    requires address % ATA_DMA_ALIGNMENT == 0
    ensures (ATA_DMA_PHYSICAL_BOUNDARY - address % ATA_DMA_PHYSICAL_BOUNDARY) % ATA_DMA_ALIGNMENT == 0
  {
    var region, words := address / ATA_DMA_PHYSICAL_BOUNDARY, address / ATA_DMA_ALIGNMENT;
    assert ATA_DMA_PHYSICAL_BOUNDARY - address % ATA_DMA_PHYSICAL_BOUNDARY
        == ATA_DMA_ALIGNMENT * (0x4000 * (region + 1) - words);
  }

  /** The region after an address starts at a multiple of the region size, modulo 4 GiB too. */
  lemma NextRegion(address: nat)
    requires address < DWORD_VALUES && address % ATA_DMA_ALIGNMENT == 0
    ensures
      var first := ATA_DMA_PHYSICAL_BOUNDARY - address % ATA_DMA_PHYSICAL_BOUNDARY;
      var next := (address + first) % DWORD_VALUES;
      && next % ATA_DMA_PHYSICAL_BOUNDARY == 0 && next % ATA_DMA_ALIGNMENT == 0
      && first % ATA_DMA_ALIGNMENT == 0
  {
    var region := address / ATA_DMA_PHYSICAL_BOUNDARY;
    assert address + (ATA_DMA_PHYSICAL_BOUNDARY - address % ATA_DMA_PHYSICAL_BOUNDARY)
        == ATA_DMA_PHYSICAL_BOUNDARY * (region + 1);
    RegionStart(region);
    RegionMultiple(if region == 0xFFFF then 0 else region + 1);
    RestOfRegion(address);
  }

  lemma PairIsWellFormed(pair: Pair)
    requires Validate(pair).None?
    ensures pair.NumberOfBytes > 0
            <==> AllWellFormed(EntriesFor(pair.Address, pair.NumberOfBytes))
  {
    hide EntriesFor;
    var address, count := pair.Address, pair.NumberOfBytes;
    if count == 0 {
      EntriesForEmpty(address);
    } else {
      hide WellFormed;
      EntriesForPair(pair);
      NextRegion(address);
      var first := ATA_DMA_PHYSICAL_BOUNDARY - address % ATA_DMA_PHYSICAL_BOUNDARY;
      if count <= first {
        EntryInsideRegion(address, count, false);
      } else {
        EntryInsideRegion(address, first, false);
        EntryInsideRegion((address + first) % DWORD_VALUES, count - first, false);
      }
    }
  }

  /** No entry is empty, crosses a 64 KiB boundary or is misaligned, exactly when no pair is empty. */
  lemma {:induction false} EntriesAreWellFormed(pairs: seq<Pair>)
    requires AllValid(pairs)
    ensures AllWellFormed(EntriesOf(pairs)) <==> forall i :: 0 <= i < |pairs| ==> pairs[i].NumberOfBytes > 0
  {
    hide EntriesFor;
    hide WellFormed;
    hide Validate;
    if pairs == [] {
    } else {
      var rest := pairs[1..];
      PairIsWellFormed(pairs[0]);
      EntriesAreWellFormed(rest);
      assert forall i :: 0 <= i < |rest| ==> rest[i] == pairs[i + 1];
      assert forall i :: 0 < i < |pairs| ==> pairs[i] == rest[i - 1];
      hide AllWellFormed;
      AllOfBoth(EntriesFor(pairs[0].Address, pairs[0].NumberOfBytes), EntriesOf(rest));
    }
  }

  lemma AllOfBoth(a: seq<Entry>, b: seq<Entry>)
    ensures AllWellFormed(a + b) <==> AllWellFormed(a) && AllWellFormed(b)
  {
    hide WellFormed;
    if AllWellFormed(a + b) {
      forall i | 0 <= i < |a|
        ensures WellFormed(a[i])
      {
        assert (a + b)[i] == a[i];
      }
      forall i | 0 <= i < |b|
        ensures WellFormed(b[i])
      {
        assert (a + b)[|a| + i] == b[i];
      }
    }
  }

  // ---------------------------------------------------------------------------------------------
  // _AtaPrepareDmaTransfer
  // ---------------------------------------------------------------------------------------------

  datatype Outcome =
    | Stopped                // an ASSERT of the source fires
    | Failed(status: Status) // the first invalid pair
    | Built(entries: nat)    // how many entries of the array are the table

  /** The first pair that does not validate, and why. */
  function FirstInvalid(pairs: seq<Pair>): Option<Status> {
    if pairs == [] then None
    else if Validate(pairs[0]).Some? then Validate(pairs[0])
    else FirstInvalid(pairs[1..])
  }

  lemma {:induction false} FirstInvalidIsFirst(pairs: seq<Pair>)
    ensures FirstInvalid(pairs).None? <==> AllValid(pairs)
    ensures forall k :: 0 <= k < |pairs| && AllValid(pairs[..k]) && Validate(pairs[k]).Some?
                        ==> FirstInvalid(pairs) == Validate(pairs[k])
  {
    if pairs == [] {
    } else {
      FirstInvalidIsFirst(pairs[1..]);
      forall k | 0 < k < |pairs| && AllValid(pairs[..k]) && Validate(pairs[k]).Some?
        ensures FirstInvalid(pairs) == Validate(pairs[k])
      {
        assert pairs[..k][0] == pairs[0];
        assert pairs[1..][..k - 1] == pairs[..k][1..];
      }
    }
  }

  lemma NothingYet(pairs: seq<Pair>, total: nat)
    ensures TotalBytes(pairs[..0]) == 0 && EntriesOf(Clip(pairs[..0], total)) == []
  {
  }

  lemma {:induction false} ClipOneMore(pairs: seq<Pair>, p: Pair, total: nat)
    ensures
      var left := total - Min(total, TotalBytes(pairs));
      && Clip(pairs + [p], total) == Clip(pairs, total) + [p.(NumberOfBytes := Min(p.NumberOfBytes, left))]
      && TotalBytes(pairs + [p]) == TotalBytes(pairs) + p.NumberOfBytes
  {
    if pairs == [] {
      assert [] + [p] == [p] && [p][1..] == [];
    } else {
      assert (pairs + [p])[1..] == pairs[1..] + [p];
      ClipOneMore(pairs[1..], p, total - Min(pairs[0].NumberOfBytes, total));
    }
  }

  lemma {:induction false} EntriesOneMore(pairs: seq<Pair>, p: Pair)
    ensures EntriesOf(pairs + [p]) == EntriesOf(pairs) + EntriesFor(p.Address, p.NumberOfBytes)
  {
    hide EntriesFor;
    if pairs == [] {
      assert [] + [p] == [p] && [p][1..] == [];
    } else {
      assert (pairs + [p])[1..] == pairs[1..] + [p];
      EntriesOneMore(pairs[1..], p);
    }
  }

  /** What the next pair adds to the table. */
  lemma OnePairMore(pairs: seq<Pair>, total: nat, i: nat)
    requires i < |pairs|
    ensures
      var left := total - Min(total, TotalBytes(pairs[..i]));
      var used := Min(pairs[i].NumberOfBytes, left);
      && EntriesOf(Clip(pairs[..i + 1], total))
         == EntriesOf(Clip(pairs[..i], total)) + EntriesFor(pairs[i].Address, used)
      && Min(total, TotalBytes(pairs[..i + 1])) == Min(total, TotalBytes(pairs[..i])) + used
  {
    hide Clip;
    hide EntriesOf;
    hide EntriesFor;
    hide TotalBytes;
    assert pairs[..i + 1] == pairs[..i] + [pairs[i]];
    ClipOneMore(pairs[..i], pairs[i], total);
    var used := Min(pairs[i].NumberOfBytes, total - Min(total, TotalBytes(pairs[..i])));
    EntriesOneMore(Clip(pairs[..i], total), pairs[i].(NumberOfBytes := used));
  }

  /** The entries of one pair go behind the ones that are there. */
  method AddPair(address: nat, byteCountForPrd: nat, prdTable: array<Entry>, index: nat) returns (next: nat)
    requires address < QWORD_VALUES && byteCountForPrd < WORD_VALUES && index + 2 <= prdTable.Length
    modifies prdTable
    ensures index < next <= index + 2
    ensures prdTable[..next] == old(prdTable[..index]) + EntriesFor(address, byteCountForPrd)
  {
    next := index;
    var byteCountForAlignment := 0;
    if !IsInSameBoundary(address, byteCountForPrd) {
      byteCountForAlignment := (ATA_DMA_PHYSICAL_BOUNDARY - address % ATA_DMA_PHYSICAL_BOUNDARY) % WORD_VALUES;
      prdTable[next] := Entry(address % DWORD_VALUES, byteCountForAlignment, false);
      next := next + 1;
    }
    prdTable[next] :=
      Entry((address + byteCountForAlignment) % DWORD_VALUES,
            (byteCountForPrd - byteCountForAlignment) % WORD_VALUES, false);
    next := next + 1;
  }

  // ---------------------------------------------------------------------------------------------
  // Where the table is
  // ---------------------------------------------------------------------------------------------

  const PAGE_SIZE: nat := 0x1000
  const PRD_ENTRY_BYTES: nat := 8

  /** For how many pairs the table fits on a page. */
  const TABLE_PAIRS: nat := 256

  /** allocationSize, a DWORD: two entries a pair. */
  function TableBytes(pairCount: nat): nat {
    PRD_ENTRY_BYTES * pairCount * 2 % DWORD_VALUES
  }

  function PageOf(address: nat): nat {
    address / PAGE_SIZE
  }

  /** IsInSameBoundary of the table, for pages. */
  predicate OnOnePage(address: nat, size: nat) {
    PageOf(address) == PageOf((address + size - 1) % QWORD_VALUES)
  }

  /** The ASSERT on the table, which starts on a page of its own, holds exactly for up to 256 pairs. */
  lemma OnOnePageExactly(tableAddress: nat, pairCount: nat)
    requires tableAddress < QWORD_VALUES && tableAddress % PAGE_SIZE == 0
    requires 0 < pairCount && PRD_ENTRY_BYTES * pairCount * 2 < DWORD_VALUES
    ensures OnOnePage(tableAddress, TableBytes(pairCount)) <==> pairCount <= TABLE_PAIRS
  {
    hide PageOf;
    var size := TableBytes(pairCount);
    var page, last := tableAddress / PAGE_SIZE, tableAddress + size - 1;
    assert tableAddress == PAGE_SIZE * page;
    if last < QWORD_VALUES {
      PageExactly(page, size - 1);
    } else {
      assert last % QWORD_VALUES == last - QWORD_VALUES;
      PageBelow(last - QWORD_VALUES, page);
      PageExactly(page, 0);
    }
  }

  lemma PageExactly(page: nat, k: nat)
    ensures PageOf(PAGE_SIZE * page) == page
    ensures PageOf(PAGE_SIZE * page + k) == page <==> k < PAGE_SIZE
  {
  }

  lemma PageBelow(address: nat, page: nat)
    requires address < PAGE_SIZE * page
    ensures PageOf(address) < page
  {
  }

  /** 257 separate pages: valid, describable and as long as the transfer, and stopped all the same. */
  function SeparatePages(): (pairs: seq<Pair>)
    ensures |pairs| == 257
  {
    seq(257, i requires 0 <= i => Pair(0x10_0000 + 0x2000 * i, PAGE_SIZE))
  }

  lemma {:induction false} PagesAddUp(pairs: seq<Pair>)
    requires forall i :: 0 <= i < |pairs| ==> pairs[i].NumberOfBytes == PAGE_SIZE
    ensures TotalBytes(pairs) == PAGE_SIZE * |pairs|
  {
    if pairs == [] {
    } else {
      PagesAddUp(pairs[1..]);
    }
  }

  lemma SeparatePagesAreStopped(tableAddress: nat)
    requires tableAddress < QWORD_VALUES && tableAddress % PAGE_SIZE == 0
    ensures AllValid(SeparatePages()) && AllDescribable(SeparatePages())
    ensures TotalBytes(SeparatePages()) == 2056 * SECTOR_SIZE
    ensures forall i :: 0 <= i < 256 ==>
              SeparatePages()[i].Address + SeparatePages()[i].NumberOfBytes < SeparatePages()[i + 1].Address
    ensures !OnOnePage(tableAddress, TableBytes(|SeparatePages()|))
  {
    PagesAddUp(SeparatePages());
    OnOnePageExactly(tableAddress, |SeparatePages()|);
  }

  /**
   The allocation's check and the loop over the pairs of the MDL; the table has room for two entries a
   pair. An MDL with as many pairs as would wrap the table's size does not exist (Mdl.FewPairs).
   */
  method PrepareDmaTransfer(pairs: seq<Pair>, sectorCount: Word, tableAddress: nat, prdTable: array<Entry>)
    returns (r: Outcome)
    requires forall p :: p in pairs ==> p.IsWords()
    requires PRD_ENTRY_BYTES * |pairs| * 2 < DWORD_VALUES
    requires tableAddress < QWORD_VALUES && tableAddress % PAGE_SIZE == 0
    requires PRD_ENTRY_BYTES * prdTable.Length == TableBytes(|pairs|)
    modifies prdTable
    ensures r.Stopped? <==> || sectorCount == 0 || pairs == [] || |pairs| > TABLE_PAIRS
                            || (AllValid(pairs) && TotalBytes(pairs) < sectorCount * SECTOR_SIZE)
    ensures r.Failed? ==> FirstInvalid(pairs) == Some(r.status)
    ensures r.Built? ==> AllValid(pairs) && 0 < r.entries <= prdTable.Length
    ensures r.Built? ==> EntriesOf(Clip(pairs, sectorCount * SECTOR_SIZE)) != []
                         && prdTable[..r.entries] == MarkLast(EntriesOf(Clip(pairs, sectorCount * SECTOR_SIZE)))
    ensures r.Built? ==> forall i :: 0 <= i < r.entries ==> (prdTable[i].LastEntry <==> i == r.entries - 1)
  {
    hide EntriesFor;
    hide EntriesOf;
    hide Clip;
    hide TotalBytes;
    hide OnOnePage;
    if sectorCount == 0 || pairs == [] {
      return Stopped;
    }
    OnOnePageExactly(tableAddress, |pairs|);
    if !OnOnePage(tableAddress, TableBytes(|pairs|)) {
      return Stopped;
    }
    var bytesRemaining: nat, indexInPrdEntries := sectorCount * SECTOR_SIZE, 0;
    ghost var total := bytesRemaining;
    NothingYet(pairs, total);
    FirstInvalidIsFirst(pairs);
    for i := 0 to |pairs|
      invariant AllValid(pairs[..i])
      invariant i <= indexInPrdEntries <= 2 * i
      invariant bytesRemaining == total - Min(total, TotalBytes(pairs[..i]))
      invariant prdTable[..indexInPrdEntries] == EntriesOf(Clip(pairs[..i], total))
    {
      var pair := pairs[i];
      var status := Validate(pair);
      if status.Some? {
        return Failed(status.value);
      }
      OnePairMore(pairs, total, i);
      var byteCountForPrd := Min(pair.NumberOfBytes, bytesRemaining) % WORD_VALUES;
      assert byteCountForPrd == Min(pair.NumberOfBytes, bytesRemaining);
      indexInPrdEntries := AddPair(pair.Address, byteCountForPrd, prdTable, indexInPrdEntries);
      bytesRemaining := bytesRemaining - byteCountForPrd;
    }
    assert pairs[..|pairs|] == pairs;
    NoEntryIsLast(Clip(pairs, total));
    if bytesRemaining != 0 {
      return Stopped;
    }
    var last := prdTable[indexInPrdEntries - 1];
    prdTable[indexInPrdEntries - 1] := last.(LastEntry := true);
    r := Built(indexInPrdEntries);
    MarksTheLast(EntriesOf(Clip(pairs, total)));
    assert forall i :: 0 <= i < indexInPrdEntries ==> prdTable[i] == prdTable[..indexInPrdEntries][i];
  }
}
