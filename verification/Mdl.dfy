/**
 The memory descriptor list of a buffer: MdlAllocateEx in HAL9000/src/mdl.c, which collects the physical
 pages behind a buffer into runs; and what a DMA transfer from or to the buffer comes to.
 */
module Mdl {
  import opened Alignment
  import opened Basics
  import opened MachineWords
  import opened PrdTable
  import opened Products

  // ---------------------------------------------------------------------------------------------
  // The pages behind a buffer
  // ---------------------------------------------------------------------------------------------

  /** The physical address of a mapped page. */
  predicate IsFrame(frame: nat) {
    0 < frame && frame % PAGE_SIZE == 0 && frame + PAGE_SIZE <= QWORD_VALUES
  }

  predicate AreFrames(frames: seq<nat>) {
    forall i :: 0 <= i < |frames| ==> IsFrame(frames[i])
  }

  /** How many pages a buffer lies on that starts `offset` bytes into the first of them. */
  function PageCount(offset: nat, length: nat): nat {
    (offset + length + PAGE_SIZE - 1) / PAGE_SIZE
  }

  /** Where byte k of the buffer is in physical memory. */
  function Physical(frames: seq<nat>, offset: nat, k: nat): nat
    requires offset + k < PAGE_SIZE * |frames|
  {
    frames[(offset + k) / PAGE_SIZE] + (offset + k) % PAGE_SIZE
  }

  /** The physical addresses from the start of the buffer to the end of its last page. */
  function Physicals(frames: seq<nat>, offset: nat): (addresses: seq<nat>)
    requires offset < PAGE_SIZE && frames != []
    ensures |addresses| == PAGE_SIZE * |frames| - offset
  {
    seq(PAGE_SIZE * |frames| - offset, k requires 0 <= k < PAGE_SIZE * |frames| - offset => Physical(frames, offset, k))
  }

  // ---------------------------------------------------------------------------------------------
  // Runs of pages
  // ---------------------------------------------------------------------------------------------

  /** The page follows the last one of the run. */
  predicate Continues(run: Pair, frame: nat) {
    run.Address + run.NumberOfBytes == frame
  }

  function Longer(run: Pair): Pair {
    run.(NumberOfBytes := run.NumberOfBytes + PAGE_SIZE)
  }

  function AddPage(runs: seq<Pair>, frame: nat): (r: seq<Pair>)
    requires runs != []
    ensures |runs| <= |r| <= |runs| + 1
  {
    var last := runs[|runs| - 1];
    if Continues(last, frame) then runs[..|runs| - 1] + [Longer(last)] else runs + [Pair(frame, PAGE_SIZE)]
  }

  /** The translation pairs of a buffer on these pages. */
  function PairsOf(frames: seq<nat>, offset: nat): (pairs: seq<Pair>)
    requires offset < PAGE_SIZE && frames != []
    ensures 1 <= |pairs| <= |frames|
  {
    if |frames| == 1 then [Pair(frames[0] + offset, PAGE_SIZE - offset)]
    else AddPage(PairsOf(frames[..|frames| - 1], offset), frames[|frames| - 1])
  }

  /** At how many places one page does not follow the other. */
  function Breaks(frames: seq<nat>): nat {
    if |frames| <= 1 then 0
    else
      Breaks(frames[..|frames| - 1])
      + if frames[|frames| - 2] + PAGE_SIZE == frames[|frames| - 1] then 0 else 1
  }

  function Last(pairs: seq<Pair>): Pair
    requires pairs != []
  {
    pairs[|pairs| - 1]
  }

  lemma ScatterOneMore(pairs: seq<Pair>, p: Pair)
    ensures Scatter(pairs + [p]) == Scatter(pairs) + Span(p.Address, p.NumberOfBytes)
    ensures TotalBytes(pairs + [p]) == TotalBytes(pairs) + p.NumberOfBytes
  {
    hide Span;
    ScatterGrows(pairs, p);
    ClipOneMore(pairs, p, 0);
  }

  lemma {:induction false} ScatterGrows(pairs: seq<Pair>, p: Pair)
    ensures Scatter(pairs + [p]) == Scatter(pairs) + Span(p.Address, p.NumberOfBytes)
  {
    hide Span;
    if pairs == [] {
      assert [] + [p] == [p] && [p][1..] == [];
    } else {
      assert (pairs + [p])[1..] == pairs[1..] + [p];
      ScatterGrows(pairs[1..], p);
    }
  }

  lemma SpanGrows(address: nat, count: nat, more: nat)
    ensures Span(address, count + more) == Span(address, count) + Span(address + count, more)
  {
  }

  /** One page more adds the addresses of the page, whether it continues the last run or not. */
  lemma AddPageScatters(runs: seq<Pair>, frame: nat)
    requires runs != []
    ensures Scatter(AddPage(runs, frame)) == Scatter(runs) + Span(frame, PAGE_SIZE)
    ensures TotalBytes(AddPage(runs, frame)) == TotalBytes(runs) + PAGE_SIZE
  {
    hide Scatter;
    hide TotalBytes;
    hide Span;
    var front, last := runs[..|runs| - 1], Last(runs);
    if Continues(last, frame) {
      assert runs == front + [last];
      ScatterOneMore(front, last);
      ScatterOneMore(front, Longer(last));
      SpanGrows(last.Address, last.NumberOfBytes, PAGE_SIZE);
    } else {
      ScatterOneMore(runs, Pair(frame, PAGE_SIZE));
    }
  }

  lemma OnePageMore(frames: seq<nat>, offset: nat)
    requires offset < PAGE_SIZE && |frames| > 1
    ensures Physicals(frames, offset)
         == Physicals(frames[..|frames| - 1], offset) + Span(frames[|frames| - 1], PAGE_SIZE)
  {
  }

  lemma FirstPage(frame: nat, offset: nat)
    requires offset < PAGE_SIZE
    ensures Physicals([frame], offset) == Span(frame + offset, PAGE_SIZE - offset)
    ensures Scatter([Pair(frame + offset, PAGE_SIZE - offset)]) == Span(frame + offset, PAGE_SIZE - offset)
    ensures TotalBytes([Pair(frame + offset, PAGE_SIZE - offset)]) == PAGE_SIZE - offset
  {
    ScatterOneMore([], Pair(frame + offset, PAGE_SIZE - offset));
    assert [] + [Pair(frame + offset, PAGE_SIZE - offset)] == [Pair(frame + offset, PAGE_SIZE - offset)];
  }

  /** The list of an MDL is the buffer: its scattered bytes are the physical bytes behind it, in order. */
  lemma {:induction false} PairsAreTheBuffer(frames: seq<nat>, offset: nat)
    requires offset < PAGE_SIZE && frames != []
    ensures Scatter(PairsOf(frames, offset)) == Physicals(frames, offset)
    ensures TotalBytes(PairsOf(frames, offset)) == PAGE_SIZE * |frames| - offset
  {
    hide Scatter;
    hide TotalBytes;
    hide Physicals;
    hide AddPage;
    var n := |frames| - 1;
    if n == 0 {
      assert frames == [frames[0]];
      FirstPage(frames[0], offset);
    } else {
      PairsAreTheBuffer(frames[..n], offset);
      AddPageScatters(PairsOf(frames[..n], offset), frames[n]);
      OnePageMore(frames, offset);
    }
  }

  // ---------------------------------------------------------------------------------------------
  // Shape of the list
  // ---------------------------------------------------------------------------------------------

  /** A pair as MdlAllocateEx makes it: not empty, and its fields do not wrap. */
  predicate IsRun(p: Pair, bytes: nat) {
    && 0 < p.NumberOfBytes <= bytes
    && p.Address + p.NumberOfBytes <= QWORD_VALUES && p.Address < QWORD_VALUES
  }

  predicate AreRuns(pairs: seq<Pair>, bytes: nat) {
    forall i :: 0 <= i < |pairs| ==> IsRun(pairs[i], bytes)
  }

  /** Every pair but the last ends before the last page. */
  lemma {:induction false} RunsOfPages(frames: seq<nat>, offset: nat)
    requires offset < PAGE_SIZE && frames != [] && AreFrames(frames)
    ensures
      var pairs := PairsOf(frames, offset);
      && AreRuns(pairs, PAGE_SIZE * |frames|)
      && Last(pairs).Address + Last(pairs).NumberOfBytes == frames[|frames| - 1] + PAGE_SIZE
      && |pairs| == 1 + Breaks(frames)
      && TotalBytes(pairs[..|pairs| - 1]) <= Max(offset, PAGE_SIZE * (|frames| - 1)) - offset
  {
    hide Scatter;
    hide TotalBytes;
    hide AddPage;
    var n := |frames| - 1;
    var pairs := PairsOf(frames, offset);
    if n == 0 {
      NoBytes();
      assert IsFrame(frames[0]);
    } else {
      hide IsFrame;
      var runs := PairsOf(frames[..n], offset);
      RunsOfPages(frames[..n], offset);
      PairsAreTheBuffer(frames[..n], offset);
      assert IsFrame(frames[n]) && frames[..n][n - 1] == frames[n - 1];
      AddPageRuns(runs, frames[n], PAGE_SIZE * n);
    }
  }

  lemma AddPageRuns(runs: seq<Pair>, frame: nat, bytes: nat)
    requires runs != [] && AreRuns(runs, bytes) && IsFrame(frame)
    ensures
      var pairs := AddPage(runs, frame);
      && AreRuns(pairs, bytes + PAGE_SIZE)
      && Last(pairs).Address + Last(pairs).NumberOfBytes == frame + PAGE_SIZE
      && |pairs| == |runs| + (if Continues(Last(runs), frame) then 0 else 1)
      && pairs[..|pairs| - 1] == if Continues(Last(runs), frame) then runs[..|runs| - 1] else runs
  {
    var pairs := AddPage(runs, frame);
    assert IsRun(Last(runs), bytes);
    forall i | 0 <= i < |pairs|
      ensures IsRun(pairs[i], bytes + PAGE_SIZE)
    {
      if i < |pairs| - 1 {
        assert pairs[i] == runs[i] && IsRun(runs[i], bytes);
      }
    }
  }

  lemma NoBytes()
    ensures TotalBytes([]) == 0
  {
  }

  predicate Contiguous(frames: seq<nat>) {
    forall i :: 0 <= i < |frames| - 1 ==> frames[i] + PAGE_SIZE == frames[i + 1]
  }

  /** Contiguous pages are one pair. */
  lemma {:induction false} ContiguousIsOnePair(frames: seq<nat>, offset: nat)
    requires offset < PAGE_SIZE && frames != [] && Contiguous(frames)
    ensures PairsOf(frames, offset) == [Pair(frames[0] + offset, PAGE_SIZE * |frames| - offset)]
    ensures frames[|frames| - 1] == frames[0] + PAGE_SIZE * (|frames| - 1)
  {
    hide AddPage;
    var n := |frames| - 1;
    if n == 0 {
    } else {
      hide Contiguous;
      FrontIsContiguous(frames);
      ContiguousIsOnePair(frames[..n], offset);
      LongerPair(frames[0] + offset, PAGE_SIZE * n - offset);
    }
  }

  lemma FrontIsContiguous(frames: seq<nat>)
    requires |frames| > 1 && Contiguous(frames)
    ensures
      var n := |frames| - 1;
      Contiguous(frames[..n]) && frames[..n][n - 1] + PAGE_SIZE == frames[n] && frames[..n][0] == frames[0]
  {
    var n := |frames| - 1;
    forall i | 0 <= i < n - 1
      ensures frames[..n][i] + PAGE_SIZE == frames[..n][i + 1]
    {
      assert frames[i] + PAGE_SIZE == frames[i + 1];
    }
    assert frames[n - 1] + PAGE_SIZE == frames[n];
  }

  lemma LongerPair(address: nat, bytes: nat)
    ensures AddPage([Pair(address, bytes)], address + bytes) == [Pair(address, bytes + PAGE_SIZE)]
  {
  }

  // ---------------------------------------------------------------------------------------------
  // A DMA transfer of a buffer
  // ---------------------------------------------------------------------------------------------

  /** What a DMA transfer of so many sectors from or to a buffer works on. */
  predicate IsBuffer(frames: seq<nat>, offset: nat, sectorCount: nat) {
    && AreFrames(frames) && offset < PAGE_SIZE && 0 < sectorCount < WORD_VALUES
    && |frames| == PageCount(offset, sectorCount * SECTOR_SIZE)
  }

  lemma PageCountIs(offset: nat, length: nat)
    requires length > 0
    ensures PAGE_SIZE * (PageCount(offset, length) - 1) < offset + length <= PAGE_SIZE * PageCount(offset, length)
  {
  }

  /** There are never so many pairs that the size of a table for them would wrap, and never too few bytes. */
  lemma FewPairs(frames: seq<nat>, offset: nat, sectorCount: nat)
    requires IsBuffer(frames, offset, sectorCount)
    ensures
      var pairs := PairsOf(frames, offset);
      && |frames| <= 8193 && PRD_ENTRY_BYTES * |pairs| * 2 < DWORD_VALUES
      && sectorCount * SECTOR_SIZE <= TotalBytes(pairs)
      && forall p :: p in pairs ==> p.IsWords()
  {
    hide Scatter;
    hide TotalBytes;
    hide PageCount;
    PageCountIs(offset, sectorCount * SECTOR_SIZE);
    PairsAreTheBuffer(frames, offset);
    RunsOfPages(frames, offset);
    var pairs := PairsOf(frames, offset);
    forall p | p in pairs
      ensures p.IsWords()
    {
      var i :| 0 <= i < |pairs| && pairs[i] == p;
      assert IsRun(pairs[i], PAGE_SIZE * |frames|);
    }
  }

  /**
   For a buffer, _AtaPrepareDmaTransfer stops exactly when its pages have 256 breaks or more: the list is
   never too short, and the ASSERT on the table is the only one left.
   */
  lemma BufferStopsExactly(frames: seq<nat>, offset: nat, sectorCount: nat, tableAddress: nat)
    requires IsBuffer(frames, offset, sectorCount)
    requires tableAddress < QWORD_VALUES && tableAddress % PAGE_SIZE == 0
    ensures TotalBytes(PairsOf(frames, offset)) >= sectorCount * SECTOR_SIZE
    ensures OnOnePage(tableAddress, TableBytes(|PairsOf(frames, offset)|)) <==> Breaks(frames) < TABLE_PAIRS
  {
    hide TotalBytes;
    FewPairs(frames, offset, sectorCount);
    RunsOfPages(frames, offset);
    OnOnePageExactly(tableAddress, |PairsOf(frames, offset)|);
  }

  predicate NoneEmpty(pairs: seq<Pair>) {
    forall i :: 0 <= i < |pairs| ==> pairs[i].NumberOfBytes > 0
  }

  /** No pair is cut to nothing if all but the last are needed. */
  lemma {:induction false} ClipLeavesNoneEmpty(pairs: seq<Pair>, total: nat)
    requires NoneEmpty(pairs) && pairs != [] && TotalBytes(pairs[..|pairs| - 1]) < total
    ensures NoneEmpty(Clip(pairs, total))
  {
    var rest := pairs[1..];
    var clipped := Clip(pairs, total);
    if rest == [] {
      assert Clip(rest, total - Min(pairs[0].NumberOfBytes, total)) == [];
    } else {
      var front := pairs[..|pairs| - 1];
      assert front[0] == pairs[0] && front[1..] == rest[..|rest| - 1];
      ClipLeavesNoneEmpty(rest, total - pairs[0].NumberOfBytes);
    }
  }

  ghost predicate AllBelow(addresses: seq<nat>) {
    forall k :: 0 <= k < |addresses| ==> addresses[k] < DWORD_VALUES
  }

  lemma AllBelowBoth(a: seq<nat>, b: seq<nat>)
    ensures AllBelow(a + b) <==> AllBelow(a) && AllBelow(b)
  {
    if AllBelow(a + b) {
      assert forall k :: 0 <= k < |b| ==> b[k] == (a + b)[|a| + k];
      assert forall k :: 0 <= k < |a| ==> a[k] == (a + b)[k];
    }
  }

  lemma SpanBelow(address: nat, count: nat)
    requires count > 0
    ensures AllBelow(Span(address, count)) <==> address + count <= DWORD_VALUES
  {
    assert Span(address, count)[count - 1] == address + count - 1;
  }

  /** A list without empty pairs can be described exactly when its bytes lie below 4 GiB. */
  lemma {:induction false} DescribableExactly(pairs: seq<Pair>)
    requires NoneEmpty(pairs)
    ensures AllDescribable(pairs) <==> AllBelow(Scatter(pairs))
  {
    hide AllBelow;
    hide Span;
    if pairs == [] {
      AllBelowNone();
    } else {
      DescribableExactly(pairs[1..]);
      SpanBelow(pairs[0].Address, pairs[0].NumberOfBytes);
      AllBelowBoth(Span(pairs[0].Address, pairs[0].NumberOfBytes), Scatter(pairs[1..]));
      assert AllDescribable(pairs) <==> Describable(pairs[0]) && AllDescribable(pairs[1..]) by {
        assert pairs == [pairs[0]] + pairs[1..];
      }
    }
  }

  lemma AllBelowNone()
    ensures AllBelow([])
  {
  }

  /** The physical addresses of the first bytes of a buffer. */
  function BufferBytes(frames: seq<nat>, offset: nat, length: nat): seq<nat>
    requires offset + length <= PAGE_SIZE * |frames|
  {
    seq(length, k requires 0 <= k < length => Physical(frames, offset, k))
  }

  /**
   From buffer to controller: for a buffer whose pairs pass the validation, the controller transfers the
   physical bytes behind the buffer, in order, if and only if all of them lie below 4 GiB. The other way
   to a wrong table, an empty pair, never comes from an MDL.
   */
  lemma BufferIsTransferred(frames: seq<nat>, offset: nat, sectorCount: nat)
    requires IsBuffer(frames, offset, sectorCount) && AllValid(PairsOf(frames, offset))
    ensures
      var total := sectorCount * SECTOR_SIZE;
      var entries := EntriesOf(Clip(PairsOf(frames, offset), total));
      && entries != [] && offset + total <= PAGE_SIZE * |frames|
      && (Transferred(MarkLast(entries)) == Some(BufferBytes(frames, offset, total))
          <==> AllBelow(BufferBytes(frames, offset, total)))
  {
    hide Scatter;
    hide TotalBytes;
    hide Clip;
    hide EntriesOf;
    hide Transferred;
    hide AllBelow;
    hide Validate;
    hide Describable;
    hide PageCount;
    var total := sectorCount * SECTOR_SIZE;
    var pairs := PairsOf(frames, offset);
    PageCountIs(offset, total);
    FewPairs(frames, offset, sectorCount);
    RunsOfPages(frames, offset);
    PairsAreTheBuffer(frames, offset);
    assert NoneEmpty(pairs) by {
      forall i | 0 <= i < |pairs|
        ensures pairs[i].NumberOfBytes > 0
      {
        assert IsRun(pairs[i], PAGE_SIZE * |frames|);
      }
    }
    TotalIsWholeSectors(sectorCount);
    TableTransfersTheList(pairs, total);
    ClipTakesThePrefix(pairs, total);
    ClipLeavesNoneEmpty(pairs, total);
    DescribableExactly(Clip(pairs, total));
    assert Physicals(frames, offset)[..total] == BufferBytes(frames, offset, total);
  }

  lemma TotalIsWholeSectors(sectorCount: nat)
    ensures sectorCount * SECTOR_SIZE % SECTOR_SIZE == 0
  {
  }

  /** A contiguous buffer of 64 KiB is refused, although the table could describe it in pieces. */
  lemma ContiguousBufferIsRefused(frames: seq<nat>, offset: nat)
    requires offset < PAGE_SIZE && frames != [] && Contiguous(frames)
    requires frames[0] + offset <= MAX_DWORD && offset % ATA_DMA_ALIGNMENT == 0 && AreFrames(frames)
    ensures FirstInvalid(PairsOf(frames, offset)) == Some(SpanTooLarge)
            <==> PAGE_SIZE * |frames| - offset >= ATA_DMA_PHYSICAL_BOUNDARY
    ensures AllValid(PairsOf(frames, offset))
            <==> PAGE_SIZE * |frames| - offset < ATA_DMA_PHYSICAL_BOUNDARY
  {
    ContiguousIsOnePair(frames, offset);
    var pairs := PairsOf(frames, offset);
    assert IsFrame(frames[0]);
    assert pairs[0] == Pair(frames[0] + offset, PAGE_SIZE * |frames| - offset) && pairs[1..] == [];
    WordsOfPages(frames[0], |frames|, offset);
    assert Validate(pairs[0])
        == if PAGE_SIZE * |frames| - offset > ATA_DMA_MAX_PHYSICAL_LEN then Some(SpanTooLarge) else None;
  }

  lemma WordsOfPages(frame: nat, n: nat, offset: nat)
    requires frame % PAGE_SIZE == 0 && offset % ATA_DMA_ALIGNMENT == 0 && offset < PAGE_SIZE && n > 0
    ensures (frame + offset) % ATA_DMA_ALIGNMENT == 0
    ensures (PAGE_SIZE * n - offset) % ATA_DMA_ALIGNMENT == 0
  {
    var page, words := frame / PAGE_SIZE, offset / ATA_DMA_ALIGNMENT;
    assert frame + offset == ATA_DMA_ALIGNMENT * (1024 * page + words);
    assert PAGE_SIZE * n - offset == ATA_DMA_ALIGNMENT * (1024 * n - words);
  }

  // ---------------------------------------------------------------------------------------------
  // MdlAllocateEx
  // ---------------------------------------------------------------------------------------------

  /** alignedSize, a DWORD like the sum it is computed from. */
  function AlignedSize(offset: nat, length: nat): nat {
    AlignUp((length + offset) % DWORD_VALUES, PAGE_SIZE) % DWORD_VALUES
  }

  /** How many pages the loops go through; the first one is not looked at by them. */
  function PagesWalked(offset: nat, length: nat): (n: nat)
    ensures n >= 1
  {
    Max(1, AlignedSize(offset, length) / PAGE_SIZE)
  }

  lemma PageSizeIsPower()
    ensures PowerOfTwo(PAGE_SIZE)
  {
    assert PowerOfTwo(4) && PowerOfTwo(16) && PowerOfTwo(64) && PowerOfTwo(256) && PowerOfTwo(1024);
  }

  lemma AlignedSizeIs(offset: nat, length: nat)
    ensures AlignedSize(offset, length)
         == ((length + offset) % DWORD_VALUES + PAGE_SIZE - 1) / PAGE_SIZE * PAGE_SIZE % DWORD_VALUES
  {
    var x := (length + offset) % DWORD_VALUES + PAGE_SIZE - 1;
    PageSizeIsPower();
    MaskIsRemainder(x, PAGE_SIZE);
    assert Remainder(x, PAGE_SIZE) == x - x / PAGE_SIZE * PAGE_SIZE;
  }

  /** The loops reach every page of the buffer exactly when its end, rounded up to a page, fits in a DWORD. */
  lemma WalksAllPagesExactly(offset: nat, length: nat)
    requires offset < PAGE_SIZE && 0 < length < DWORD_VALUES
    ensures PagesWalked(offset, length) == PageCount(offset, length) <==> offset + length <= DWORD_VALUES - PAGE_SIZE
  {
    hide AlignedSize;
    AlignedSizeIs(offset, length);
  }

  /** The pass over the pages that both loops make, up to the page before `k`. */
  lemma PassStep(frames: seq<nat>, offset: nat, k: nat)
    requires offset < PAGE_SIZE && 0 < k < |frames|
    ensures
      var before := PairsOf(frames[..k], offset);
      && PairsOf(frames[..k + 1], offset) == AddPage(before, frames[k])
  {
    assert frames[..k + 1][..k] == frames[..k];
  }

  lemma {:induction false} PairsGrow(frames: seq<nat>, offset: nat, k: nat)
    requires offset < PAGE_SIZE && 0 < k <= |frames|
    ensures |PairsOf(frames[..k], offset)| <= |PairsOf(frames, offset)|
    decreases |frames| - k
  {
    if k == |frames| {
      assert frames[..k] == frames;
    } else {
      PassStep(frames, offset, k);
      PairsGrow(frames, offset, k + 1);
    }
  }

  /**
   MdlAllocateEx, on the physical addresses of the buffer's pages: one loop counts the pairs, a second one
   fills them in. The end of a run is a QWORD, but no page is at 0, where it could wrap to.
   */
  method MdlAllocateEx(pages: seq<nat>, alignmentDifferences: nat, length: nat) returns (translations: array<Pair>)
    requires alignmentDifferences < PAGE_SIZE && 0 < length < DWORD_VALUES
    requires |pages| >= PagesWalked(alignmentDifferences, length) && AreFrames(pages)
    ensures translations[..] == PairsOf(pages[..PagesWalked(alignmentDifferences, length)], alignmentDifferences)
  {
    hide PairsOf;
    hide AlignedSize;
    ghost var n := PagesWalked(alignmentDifferences, length);
    ghost var frames := pages[..n];
    var alignedSize := AlignedSize(alignmentDifferences, length);
    var first := Pair(pages[0] + alignmentDifferences, PAGE_SIZE - alignmentDifferences);
    OneFrame(frames, alignmentDifferences);
    WholePages(alignmentDifferences, length);
    var curPair, noOfPairs, offset := first, 1, PAGE_SIZE;
    ghost var k: nat := 1;
    while offset < alignedSize
      invariant 1 <= k <= n && offset == PAGE_SIZE * k
      invariant noOfPairs == |PairsOf(frames[..k], alignmentDifferences)|
      invariant curPair == Last(PairsOf(frames[..k], alignmentDifferences))
      decreases alignedSize - offset
    {
      PassStep(frames, alignmentDifferences, k);
      var pa := pages[offset / PAGE_SIZE];
      if Continues(curPair, pa) {
        curPair := Longer(curPair);
      } else {
        noOfPairs := noOfPairs + 1;
        curPair := Pair(pa, PAGE_SIZE);
      }
      offset := offset + PAGE_SIZE;
      k := k + 1;
    }
    assert frames[..n] == frames;
    translations := new Pair[noOfPairs](_ => Pair(0, 0));
    var indexInMdlArray := 0;
    curPair, offset, k := first, PAGE_SIZE, 1;
    while offset < alignedSize
      invariant 1 <= k <= n && offset == PAGE_SIZE * k
      invariant indexInMdlArray + 1 == |PairsOf(frames[..k], alignmentDifferences)| <= noOfPairs
      invariant curPair == Last(PairsOf(frames[..k], alignmentDifferences))
      invariant translations[..indexInMdlArray] == PairsOf(frames[..k], alignmentDifferences)[..indexInMdlArray]
      decreases alignedSize - offset
    {
      PassStep(frames, alignmentDifferences, k);
      PairsGrow(frames, alignmentDifferences, k + 1);
      var pa := pages[offset / PAGE_SIZE];
      if Continues(curPair, pa) {
        curPair := Longer(curPair);
      } else {
        translations[indexInMdlArray] := curPair;
        curPair := Pair(pa, PAGE_SIZE);
        indexInMdlArray := indexInMdlArray + 1;
      }
      offset := offset + PAGE_SIZE;
      k := k + 1;
    }
    translations[indexInMdlArray] := curPair;
  }

  lemma OneFrame(frames: seq<nat>, offset: nat)
    requires offset < PAGE_SIZE && frames != []
    ensures PairsOf(frames[..1], offset) == [Pair(frames[0] + offset, PAGE_SIZE - offset)]
  {
  }

  lemma WholePages(offset: nat, length: nat)
    ensures AlignedSize(offset, length) % PAGE_SIZE == 0
  {
    hide AlignedSize;
    AlignedSizeIs(offset, length);
    WholePagesOfDword(((length + offset) % DWORD_VALUES + PAGE_SIZE - 1) / PAGE_SIZE);
  }

  lemma WholePagesOfDword(q: nat)
    ensures q * PAGE_SIZE % DWORD_VALUES % PAGE_SIZE == 0
  {
    var h, r := q / 0x10_0000, q % 0x10_0000;
    assert q == 0x10_0000 * h + r;
    DwordPart(h, PAGE_SIZE * r);
    WholePage(r);
  }

  lemma DwordPart(h: nat, low: nat)
    requires low < DWORD_VALUES
    ensures (DWORD_VALUES * h + low) % DWORD_VALUES == low
  {
  }

  lemma WholePage(r: nat)
    ensures PAGE_SIZE * r % PAGE_SIZE == 0
  {
  }
}
