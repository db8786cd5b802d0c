/**
 The heap allocator of CommonLib/src/cl_heap.c: blocks kept in a list that is ordered by address,
 a tail pointer, and a first-fit search of the gaps that restarts from a cursor.

 Memory is modelled as addresses. The intrusive list appears as the sequence of its entries; a
 list pointer is the list head or the address of an entry. A heap state is a value here, and the
 class HeapHeader at the end updates it in place.
 */
module Heap {
  import opened Alignment
  import opened Basics
  import opened MachineWords
  import opened Products

  const HEAP_MINIMUM_SIZE: nat := 0x1_0000
  const HEAP_DEFAULT_ALIGNMENT: Positive := 16
  /** sizeof(HEAP_HEADER), sizeof(HEAP_ENTRY) and sizeof(HEAP_TAIL) on x64. */
  const HEADER_SIZE: nat := 72
  const ENTRY_SIZE: nat := 32
  const TAIL_SIZE: nat := 4
  const OVERHEAD: nat := ENTRY_SIZE + TAIL_SIZE

  /** A live block: where its HEAP_ENTRY starts and what that entry records. */
  datatype Entry = Entry(address: nat, size: nat, tag: nat, offset: nat) {
    /** The first address after the block's tail. */
    function End(): nat {
      address + ENTRY_SIZE + size + TAIL_SIZE
    }

    function Data(): nat {
      address + offset
    }
  }

  datatype Link = ListHead | EntryAt(address: nat)

  datatype State = State(base: nat, maximum: nat, remaining: int, free: nat, count: int,
                         cursor: Link, entries: seq<Entry>)

  datatype Status = InvalidSize | InvalidTag | NoMoreMemory

  /** What a call comes to: it is done at a data address, an error status, a failed ASSERT, or a walk through a list
      entry that has been freed, about which nothing can be said. */
  datatype Outcome = Done(data: nat) | Failed(status: Status) | Stopped | Wild

  // ----- placing one block

  /**
   Bytes skipped before the block's header so that its data is aligned. In the code the aligned address
   and its distance are QWORDs; the distance is below the alignment, so it is right even where the
   address wraps, and then the test of line 417 fails.
   */
  function Padding(start: nat, alignment: Positive): nat {
    AlignUpNear(start + ENTRY_SIZE, alignment);
    AlignUp(start + ENTRY_SIZE, alignment) - (start + ENTRY_SIZE)
  }

  /** The DWORD heapEntrySize of line 415. */
  function EntryBytes(size: nat): nat {
    (size + OVERHEAD) % DWORD_VALUES
  }

  /** The test of line 417. */
  predicate Fits(start: nat, available: int, size: nat, alignment: Positive) {
    Padding(start, alignment) + EntryBytes(size) <= available
  }

  function NewEntry(start: nat, size: nat, tag: nat, alignment: Positive): Entry {
    Entry(start + Padding(start, alignment), size, tag, ENTRY_SIZE)
  }

  // ----- the gap search

  /** The tests of lines 253 and 417, for the gap from `start` to `next`. */
  predicate Squeezes(start: nat, next: nat, size: nat, alignment: Positive) {
    size + OVERHEAD <= next - start && Fits(start, next - start, size, alignment)
  }

  /** Whether a block can be squeezed in between entries g and g + 1. */
  predicate GapFits(entries: seq<Entry>, g: nat, size: nat, alignment: Positive)
    requires g + 1 < |entries|
  {
    Squeezes(entries[g].End(), entries[g + 1].address, size, alignment)
  }

  /** The first gap in [lo, hi) that takes the block. */
  function FirstFit(entries: seq<Entry>, lo: nat, hi: int, size: nat, alignment: Positive): (r: Option<nat>)
    requires hi < |entries|
    ensures r.Some? ==> lo <= r.value < hi && GapFits(entries, r.value, size, alignment)
    ensures forall g: nat :: lo <= g < (if r.Some? then r.value else hi) ==> !GapFits(entries, g, size, alignment)
    decreases hi - lo
  {
    if lo >= hi then None
    else if GapFits(entries, lo, size, alignment) then Some(lo)
    else FirstFit(entries, lo + 1, hi, size, alignment)
  }

  datatype Search = Found(gap: nat) | NotFound | NullPrevious

  ghost predicate NoneFits(entries: seq<Entry>, lo: nat, hi: int, size: nat, alignment: Positive)
    requires hi < |entries|
  {
    forall g: nat :: lo <= g < hi ==> !GapFits(entries, g, size, alignment)
  }

  lemma FirstFitIs(entries: seq<Entry>, lo: nat, hi: int, g: nat, size: nat, alignment: Positive)
    requires hi < |entries| && lo <= g < hi
    requires NoneFits(entries, lo, g, size, alignment) && GapFits(entries, g, size, alignment)
    ensures FirstFit(entries, lo, hi, size, alignment) == Some(g)
  {
  }

  /** Which gap the search of lines 235-289 picks when the cursor is at ring position k (0 is the list
      head, k > 0 is entry k - 1). From an entry, the gaps on either side of it and the first gap of
      the list are never examined; and past the end of the list the previous-entry pointer is still
      NULL when no gap was examined before. */
  function SearchGap(entries: seq<Entry>, k: nat, size: nat, alignment: Positive): Search
    requires 1 <= |entries| && k <= |entries|
  {
    var n := |entries|;
    match FirstFit(entries, k, n - 1, size, alignment)
    case Some(g) => Found(g)
    case None =>
      if k == 0 then NotFound
      else if k >= 3 && k >= n - 1 then NullPrevious
      else match FirstFit(entries, 1, k - 2, size, alignment)
           case Some(g) => Found(g)
           case None => NotFound
  }

  /** The ring position of a list pointer, if the list has it. */
  function Position(entries: seq<Entry>, link: Link): (r: Option<nat>)
    ensures r.Some? ==> r.value <= |entries|
    ensures r.Some? && r.value > 0 ==> link == EntryAt(entries[r.value - 1].address)
    ensures r.Some? && r.value == 0 ==> link == ListHead
    ensures r.None? ==> link != ListHead && forall i: nat :: i < |entries| ==> link != EntryAt(entries[i].address)
  {
    if link == ListHead then Some(0)
    else if entries == [] then None
    else if link == EntryAt(entries[|entries| - 1].address) then Some(|entries|)
    else Position(entries[..|entries| - 1], link)
  }

  // ----- the operations

  function Init(base: nat, maximum: nat): State {
    State(base, maximum, maximum - HEADER_SIZE, base + HEADER_SIZE, 0, ListHead, [])
  }

  function UntilEnd(h: State): int {
    h.base + h.maximum - h.free - ENTRY_SIZE
  }

  predicate PlacesAtEnd(h: State, size: nat, alignment: Positive)
  {
    size + OVERHEAD <= UntilEnd(h) && Fits(h.free, UntilEnd(h), size, alignment)
  }

  /** A new block becomes entry i; as the last one it moves the tail pointer. */
  function Insert(h: State, i: nat, e: Entry, cursor: Link): State
    requires i <= |h.entries|
  {
    h.(entries := h.entries[..i] + [e] + h.entries[i..], cursor := cursor,
       free := if i == |h.entries| then e.End() else h.free,
       remaining := h.remaining - EntryBytes(e.size), count := h.count + 1)
  }

  function PlaceAtEnd(h: State, size: nat, tag: nat, alignment: Positive): State {
    Insert(h, |h.entries|, NewEntry(h.free, size, tag, alignment), h.cursor)
  }

  function PlaceInGap(h: State, g: nat, size: nat, tag: nat, alignment: Positive): State
    requires g + 1 < |h.entries|
  {
    var e := NewEntry(h.entries[g].End(), size, tag, alignment);
    Insert(h, g + 1, e, EntryAt(e.address))
  }

  /** The space remainingSizeBeforeCurrent of line 220. */
  function BeforeFree(h: State): int {
    h.remaining - UntilEnd(h) - ENTRY_SIZE
  }

  /** The second half of an allocation, lines 214-297: the space at the end did not do. */
  function AllocateBeforeFree(h: State, size: nat, tag: nat, alignment: Positive): (State, Outcome)
  {
    if size + OVERHEAD > BeforeFree(h) then (h, Failed(NoMoreMemory))
    else if h.entries == [] then (h, Stopped)
    else match Position(h.entries, h.cursor)
         case None => (h, Wild)
         case Some(k) =>
           match SearchGap(h.entries, k, size, alignment)
           case Found(g) =>
             var r := PlaceInGap(h, g, size, tag, alignment);
             (r, Done(r.entries[g + 1].Data()))
           case NotFound => (h, Failed(NoMoreMemory))
           case NullPrevious => (h, Stopped)
  }

  /** Alignment 0 asks for the default. */
  function AlignmentFor(requested: nat): Positive {
    if requested == 0 then HEAP_DEFAULT_ALIGNMENT else requested
  }

  /** ClHeapAllocatePoolWithTag, but for its flags. */
  function Allocate(h: State, size: nat, tag: nat, requested: nat): (State, Outcome) {
    var alignment := AlignmentFor(requested);
    if size == 0 then (h, Failed(InvalidSize))
    else if tag == 0 then (h, Failed(InvalidTag))
    else if size + OVERHEAD > h.remaining then (h, Failed(NoMoreMemory))
    else if PlacesAtEnd(h, size, alignment) then
      var r := PlaceAtEnd(h, size, tag, alignment);
      (r, Done(r.entries[|r.entries| - 1].Data()))
    else AllocateBeforeFree(h, size, tag, alignment)
  }

  /** The end of the block before entry i, or of the heap header. */
  function EndBefore(h: State, i: nat): nat
    requires i <= |h.entries|
  {
    if i == 0 then h.base + HEADER_SIZE else h.entries[i - 1].End()
  }

  function Without(entries: seq<Entry>, i: nat): seq<Entry>
    requires i < |entries|
  {
    entries[..i] + entries[i + 1..]
  }

  /** ClHeapFreePoolWithTag of the live block entries[i]; the tag has been checked. */
  function FreeEntry(h: State, i: nat): State
    requires i < |h.entries|
  {
    var e := h.entries[i];
    h.(entries := Without(h.entries, i), remaining := h.remaining + e.size + OVERHEAD, count := h.count - 1,
       free := if e.End() == h.free then EndBefore(h, i) else h.free)
  }

  /** The live block whose data starts at an address. */
  function Find(entries: seq<Entry>, data: nat): (r: Option<nat>)
    ensures r.Some? ==> r.value < |entries| && entries[r.value].Data() == data
    ensures r.None? ==> forall i: nat :: i < |entries| ==> entries[i].Data() != data
  {
    if entries == [] then None
    else if entries[|entries| - 1].Data() == data then Some(|entries| - 1)
    else Find(entries[..|entries| - 1], data)
  }

  /** ClHeapFreePoolWithTag; freeing an address that is not a live block's is outside the contract. */
  function Free(h: State, data: nat, tag: nat): (State, Outcome) {
    match Find(h.entries, data)
    case None => (h, Wild)
    case Some(i) =>
      if tag == 0 || h.entries[i].tag != tag || h.entries[i].size + OVERHEAD >= DWORD_VALUES then (h, Stopped)
      else (FreeEntry(h, i), Done(data))
  }

  // ----- the invariant

  function TotalSize(entries: seq<Entry>): nat {
    if entries == [] then 0
    else TotalSize(entries[..|entries| - 1]) + entries[|entries| - 1].size + OVERHEAD
  }

  ghost predicate EntryOk(e: Entry) {
    1 <= e.size < DWORD_VALUES - OVERHEAD && e.tag != 0 && e.offset == ENTRY_SIZE
  }

  /** Blocks are in address order, without overlap, from `start` on. */
  ghost predicate Ordered(start: nat, entries: seq<Entry>) {
    && (forall i: nat :: i < |entries| ==> EntryOk(entries[i]))
    && (forall i: nat :: i < |entries| ==> start <= entries[i].address)
    && (forall i: nat, j: nat :: i < j < |entries| ==> entries[i].End() <= entries[j].address)
  }

  ghost predicate Valid(h: State) {
    && 0 < h.base && h.base + h.maximum <= QWORD_VALUES
    && HEAP_MINIMUM_SIZE <= h.maximum < INT64_LIMIT
    && Ordered(h.base + HEADER_SIZE, h.entries)
    && h.free == EndBefore(h, |h.entries|)
    && h.free <= h.base + h.maximum
    && h.count == |h.entries|
    && h.remaining + TotalSize(h.entries) == h.maximum - HEADER_SIZE
  }

  /** The address ranges of two blocks do not meet. */
  ghost predicate Disjoint(a: Entry, b: Entry) {
    a.End() <= b.address || b.End() <= a.address
  }

  /** What callers rely on: any two live blocks are apart, and all lie between the heap header and its end. */
  lemma BlocksAreApart(h: State)
    requires Valid(h)
    ensures forall i: nat, j: nat :: i < |h.entries| && j < |h.entries| && i != j ==>
              Disjoint(h.entries[i], h.entries[j])
    ensures forall i: nat :: i < |h.entries| ==>
              h.base + HEADER_SIZE <= h.entries[i].address && h.entries[i].End() <= h.base + h.maximum
  {
    forall i: nat | i < |h.entries| ensures h.entries[i].End() <= h.base + h.maximum {
      if i < |h.entries| - 1 {
        assert h.entries[i].End() <= h.entries[|h.entries| - 1].address;
      }
    }
  }

  lemma InitValid(base: nat, maximum: nat)
    requires 0 < base && base + maximum <= QWORD_VALUES && HEAP_MINIMUM_SIZE <= maximum < INT64_LIMIT
    ensures Valid(Init(base, maximum))
  {
  }

  // ----- padding and alignment

  /** A block starts at or behind the end of the one before it; its data is aligned for powers of two. */
  lemma PaddingAligns(start: nat, alignment: Positive)
    ensures Padding(start, alignment) < alignment
    ensures PowerOfTwo(alignment) ==> Remainder(start + Padding(start, alignment) + ENTRY_SIZE, alignment) == 0
  {
    hide PowerOfTwo;
    hide Remainder;
    hide AlignUp;
    AlignUpNear(start + ENTRY_SIZE, alignment);
    if PowerOfTwo(alignment) {
      Aligns(start + ENTRY_SIZE, alignment);
    }
  }

  // ----- conservation

  lemma {:induction false} TotalSizeInsert(entries: seq<Entry>, i: nat, e: Entry)
    requires i <= |entries|
    ensures TotalSize(entries[..i] + [e] + entries[i..]) == TotalSize(entries) + e.size + OVERHEAD
  {
    var r := entries[..i] + [e] + entries[i..];
    if i == |entries| {
      assert r[..|r| - 1] == entries;
    } else {
      var last := |entries| - 1;
      var front := entries[..last];
      TotalSizeInsert(front, i, e);
      assert r[..|r| - 1] == front[..i] + [e] + front[i..];
    }
  }

  /** The bytes in the gaps before each block, and hence before the tail pointer. */
  function TotalGaps(h: State, n: nat): int
    requires n <= |h.entries|
  {
    if n == 0 then 0 else TotalGaps(h, n - 1) + h.entries[n - 1].address - EndBefore(h, n - 1)
  }

  lemma {:induction false} GapsAndBlocks(h: State, n: nat)
    requires n <= |h.entries|
    ensures TotalGaps(h, n) + TotalSize(h.entries[..n]) == EndBefore(h, n) - h.base - HEADER_SIZE
  {
    if n == 0 {
    } else {
      GapsAndBlocks(h, n - 1);
      assert h.entries[..n][..n - 1] == h.entries[..n - 1];
    }
  }

  /** The value of line 220 is the sum of all gaps before the tail pointer, so a request that gets past
      line 221 finds a list that is not empty: the assert of line 233 cannot fire. */
  lemma BeforeFreeIsTotalGaps(h: State)
    requires Valid(h)
    ensures BeforeFree(h) == TotalGaps(h, |h.entries|)
    ensures h.entries == [] ==> BeforeFree(h) == 0
  {
    GapsAndBlocks(h, |h.entries|);
    assert h.entries[..|h.entries|] == h.entries;
  }

  // ----- allocation keeps the invariant

  /** Entry i can become e: it lies between the neighbours it gets. */
  predicate Between(start: nat, entries: seq<Entry>, i: nat, e: Entry) {
    && i <= |entries|
    && (if i == 0 then start <= e.address else entries[i - 1].End() <= e.address)
    && (i < |entries| ==> e.End() <= entries[i].address)
  }

  lemma InOrder(start: nat, entries: seq<Entry>, a: nat, b: nat)
    requires Ordered(start, entries) && a <= b < |entries|
    ensures entries[a].End() <= entries[b].End() && entries[a].address <= entries[b].address
  {
  }

  lemma InsertedPair(start: nat, entries: seq<Entry>, i: nat, e: Entry, a: nat, b: nat)
    requires Ordered(start, entries) && Between(start, entries, i, e) && a < b <= |entries|
    ensures
      var r := entries[..i] + [e] + entries[i..];
      r[a].End() <= r[b].address && start <= r[a].address
  {
    var r := entries[..i] + [e] + entries[i..];
    if b == i {
      assert r[a] == entries[a];
      InOrder(start, entries, a, i - 1);
    } else if a == i {
      assert r[b] == entries[b - 1];
      InOrder(start, entries, i, b - 1);
      if i > 0 {
        assert start <= entries[i - 1].address;
      }
    } else {
      assert r[a] == entries[if a < i then a else a - 1] && r[b] == entries[if b < i then b else b - 1];
    }
  }

  lemma InsertOrdered(start: nat, entries: seq<Entry>, i: nat, e: Entry)
    requires Ordered(start, entries) && i <= |entries| && Between(start, entries, i, e) && EntryOk(e)
    ensures Ordered(start, entries[..i] + [e] + entries[i..])
  {
    hide Between;
    var r := entries[..i] + [e] + entries[i..];
    forall a: nat, b: nat | a < b < |r|
      ensures r[a].End() <= r[b].address
    {
      InsertedPair(start, entries, i, e, a, b);
    }
    forall a: nat | a < |r|
      ensures EntryOk(r[a]) && start <= r[a].address
    {
      if a < |entries| {
        InsertedPair(start, entries, i, e, a, a + 1);
      } else {
        LastIsAbove(start, entries, i, e);
      }
      assert r[a] == if a < i then entries[a] else if a == i then e else entries[a - 1];
    }
  }

  lemma LastIsAbove(start: nat, entries: seq<Entry>, i: nat, e: Entry)
    requires Ordered(start, entries) && Between(start, entries, i, e)
    ensures start <= (entries[..i] + [e] + entries[i..])[|entries|].address
  {
    var r := entries[..i] + [e] + entries[i..];
    if i == |entries| {
      assert r[|entries|] == e;
      if i > 0 {
        assert start <= entries[i - 1].address;
      }
    } else {
      assert r[|entries|] == entries[|entries| - 1];
    }
  }

  /** A block that lies between its neighbours, or behind the last block and inside the heap, can be inserted. */
  lemma InsertValid(h: State, i: nat, e: Entry, cursor: Link)
    requires Valid(h) && Between(h.base + HEADER_SIZE, h.entries, i, e) && EntryOk(e)
    requires i == |h.entries| ==> e.End() <= h.base + h.maximum
    ensures Valid(Insert(h, i, e, cursor)) && Inserted(h, Insert(h, i, e, cursor), i, e)
  {
    hide TotalSize;
    hide Ordered;
    var r := Insert(h, i, e, cursor);
    TotalSizeInsert(h.entries, i, e);
    InsertOrdered(h.base + HEADER_SIZE, h.entries, i, e);
    if i < |h.entries| {
      assert r.entries[|r.entries| - 1] == h.entries[|h.entries| - 1];
    } else {
      assert r.entries[|r.entries| - 1] == e;
    }
  }

  lemma {:induction false} TotalSizeRemove(entries: seq<Entry>, i: nat)
    requires i < |entries|
    ensures TotalSize(Without(entries, i)) == TotalSize(entries) - entries[i].size - OVERHEAD
  {
    var rest := Without(entries, i);
    TotalSizeInsert(rest, i, entries[i]);
    assert rest[..i] + [entries[i]] + rest[i..] == entries;
  }

  lemma RemoveOrdered(start: nat, entries: seq<Entry>, i: nat)
    requires Ordered(start, entries) && i < |entries|
    ensures Ordered(start, Without(entries, i))
  {
    var rest := Without(entries, i);
    forall a: nat | a < |rest| ensures rest[a] == entries[if a < i then a else a + 1] {
    }
  }

  /** The tail pointer moves exactly when the last block goes. */
  lemma FreeMovesTail(h: State, i: nat)
    requires Valid(h) && i < |h.entries|
    ensures FreeEntry(h, i).free == EndBefore(FreeEntry(h, i), |h.entries| - 1) <= h.base + h.maximum
  {
    BlocksAreApart(h);
    var n := |h.entries|;
    if i < n - 1 {
      assert h.entries[i].End() <= h.entries[n - 1].address < h.entries[n - 1].End();
    }
  }

  lemma FreeValid(h: State, i: nat)
    requires Valid(h) && i < |h.entries|
    ensures Valid(FreeEntry(h, i))
  {
    TotalSizeRemove(h.entries, i);
    RemoveOrdered(h.base + HEADER_SIZE, h.entries, i);
    FreeMovesTail(h, i);
  }

  // ----- what an allocation does

  /** The entry list with one more entry, which lies between its neighbours. */
  ghost predicate Inserted(h: State, r: State, i: nat, e: Entry) {
    && i <= |h.entries| && r.entries == h.entries[..i] + [e] + h.entries[i..]
    && EndBefore(h, i) <= e.address
    && e.End() <= (if i < |h.entries| then h.entries[i].address else h.base + h.maximum)
  }

  ghost predicate InsertedSomewhere(h: State, r: State, e: Entry) {
    exists i: nat :: Inserted(h, r, i, e)
  }

  /** `r` is `h` with one more block: of the given size and tag, its data at `data` and aligned, lying wholly
      between two neighbours, or after the last block and inside the heap. */
  ghost predicate Placed(h: State, r: State, data: nat, size: nat, tag: nat, alignment: Positive) {
    && data >= ENTRY_SIZE && (PowerOfTwo(alignment) ==> Remainder(data, alignment) == 0)
    && r.base == h.base && r.maximum == h.maximum
    && InsertedSomewhere(h, r, Entry(data - ENTRY_SIZE, size, tag, ENTRY_SIZE))
  }

  /** What was inserted is what an allocation promises. */
  lemma InsertedIsPlaced(h: State, i: nat, start: nat, size: nat, tag: nat, alignment: Positive, cursor: Link)
    requires Valid(h) && 1 <= size < DWORD_VALUES - OVERHEAD && tag != 0 && i <= |h.entries|
    requires start == EndBefore(h, i)
    requires Fits(start, (if i < |h.entries| then h.entries[i].address else h.base + h.maximum) - start - ENTRY_SIZE,
                  size, alignment)
             || (i < |h.entries| && Squeezes(start, h.entries[i].address, size, alignment))
    ensures
      var e := NewEntry(start, size, tag, alignment);
      var r := Insert(h, i, e, cursor);
      Valid(r) && Placed(h, r, e.Data(), size, tag, alignment) && r.entries[i] == e
  {
    hide Padding;
    hide Valid;
    hide Remainder;
    hide PowerOfTwo;
    PaddingAligns(start, alignment);
    var e := NewEntry(start, size, tag, alignment);
    assert e == Entry(e.Data() - ENTRY_SIZE, size, tag, ENTRY_SIZE);
    InsertValid(h, i, e, cursor);
  }

  /** A successful allocation adds one block where nothing was; a failed one changes nothing. */
  lemma AllocateIsSound(h: State, size: nat, tag: nat, requested: nat)
    requires Valid(h) && size < DWORD_VALUES - OVERHEAD
    ensures var (r, out) := Allocate(h, size, tag, requested);
            && Valid(r)
            && (out.Done? ==> Placed(h, r, out.data, size, tag, AlignmentFor(requested)))
            && (!out.Done? ==> r == h)
  {
    hide Fits;
    hide NewEntry;
    hide Placed;
    hide TotalSize;
    hide Ordered;
    var (r, out) := Allocate(h, size, tag, requested);
    if out.Done? {
      if PlacesAtEnd(h, size, AlignmentFor(requested)) {
        InsertedIsPlaced(h, |h.entries|, h.free, size, tag, AlignmentFor(requested), h.cursor);
      } else {
        var k := Position(h.entries, h.cursor).value;
        var g := SearchGap(h.entries, k, size, AlignmentFor(requested)).gap;
        var start := h.entries[g].End();
        InsertedIsPlaced(h, g + 1, start, size, tag, AlignmentFor(requested),
                         EntryAt(NewEntry(start, size, tag, AlignmentFor(requested)).address));
      }
    }
  }

  /** Remaining bytes and the bytes of live blocks add up to the heap. */
  ghost predicate Conserves(h: State) {
    h.remaining + TotalSize(h.entries) == h.maximum - HEADER_SIZE
  }

  lemma InsertionConserves(h: State, r: State, i: nat, e: Entry)
    requires Conserves(h) && i <= |h.entries| && 0 <= e.size < DWORD_VALUES && r.maximum == h.maximum
    requires r.entries == h.entries[..i] + [e] + h.entries[i..] && r.remaining == h.remaining - EntryBytes(e.size)
    ensures Conserves(r) <==> e.size + OVERHEAD < DWORD_VALUES
  {
    TotalSizeInsert(h.entries, i, e);
  }

  /** heapEntrySize is a DWORD (line 415): an allocation keeps the sum exactly when size + 36 fits in one. */
  lemma ConservationNeedsDword(h: State, size: nat, tag: nat, requested: nat)
    requires Valid(h) && size < DWORD_VALUES && Allocate(h, size, tag, requested).1.Done?
    ensures Conserves(Allocate(h, size, tag, requested).0) <==> size + OVERHEAD < DWORD_VALUES
  {
    var r := Allocate(h, size, tag, requested).0;
    if PlacesAtEnd(h, size, AlignmentFor(requested)) {
      InsertionConserves(h, r, |h.entries|, NewEntry(h.free, size, tag, AlignmentFor(requested)));
    } else {
      var g := SearchGap(h.entries, Position(h.entries, h.cursor).value, size, AlignmentFor(requested)).gap;
      InsertionConserves(h, r, g + 1, NewEntry(h.entries[g].End(), size, tag, AlignmentFor(requested)));
    }
  }

  /** So the sum is lost on a heap of 8 GiB, by a request of almost 4. */
  lemma ConservationIsLost()
    ensures
      var h := Init(4096, 0x2_0000_0000);
      && Valid(h) && Allocate(h, 0xFFFF_FFF0, 1, 1).1.Done? && !Conserves(Allocate(h, 0xFFFF_FFF0, 1, 1).0)
  {
    hide Valid;
    var h := Init(4096, 0x2_0000_0000);
    InitValid(4096, 0x2_0000_0000);
    PaddingAligns(h.free, 1);
    ConservationNeedsDword(h, 0xFFFF_FFF0, 1, 1);
  }

  /** The cursor is one of the last two entries and not one of the first two. */
  predicate CursorNearEnd(h: State) {
    match Position(h.entries, h.cursor)
    case Some(k) => k >= 3 && k >= |h.entries| - 1
    case None => false
  }

  /** Requests that are refused before any search: no bytes, and then no tag. */
  lemma RefusedRequests(h: State, size: nat, tag: nat, requested: nat)
    ensures Allocate(h, size, tag, requested) == (h, Failed(InvalidSize)) <==> size == 0
    ensures Allocate(h, size, tag, requested) == (h, Failed(InvalidTag)) <==> size > 0 && tag == 0
  {
  }

  /** An allocation stops in an ASSERT exactly when it comes to a gap search whose cursor is one of the
      last two entries and not one of the first two; the emptiness assert of line 233 never fires. */
  lemma AllocateStopsExactly(h: State, size: nat, tag: nat, requested: nat)
    requires Valid(h)
    ensures Allocate(h, size, tag, requested).1 == Stopped
       <==> && size != 0 && tag != 0
            && size + OVERHEAD <= h.remaining && !PlacesAtEnd(h, size, AlignmentFor(requested))
            && size + OVERHEAD <= TotalGaps(h, |h.entries|)
            && CursorNearEnd(h)
  {
    BeforeFreeIsTotalGaps(h);
  }

  /** An allocation walks through a freed entry exactly when it comes to a gap search and the cursor is not
      in the list. */
  lemma AllocateIsWildExactly(h: State, size: nat, tag: nat, requested: nat)
    requires Valid(h)
    ensures Allocate(h, size, tag, requested).1 == Wild
       <==> && size != 0 && tag != 0
            && size + OVERHEAD <= h.remaining && !PlacesAtEnd(h, size, AlignmentFor(requested))
            && size + OVERHEAD <= TotalGaps(h, |h.entries|)
            && Position(h.entries, h.cursor).None?
  {
    BeforeFreeIsTotalGaps(h);
  }

  /** The gaps that the search looks at from position k of a list of n blocks. */
  predicate Examined(n: nat, k: nat, g: nat) {
    k <= g < n - 1 || (k > 0 && 1 <= g < k - 2)
  }

  /** The search comes back without a gap exactly when no gap that it looks at takes the block. */
  lemma SearchFailsExactly(entries: seq<Entry>, k: nat, size: nat, alignment: Positive)
    requires 1 <= |entries| && k <= |entries|
    ensures SearchGap(entries, k, size, alignment) == NotFound
            <==> && !(k >= 3 && k >= |entries| - 1)
                 && forall g: nat :: g + 1 < |entries| && Examined(|entries|, k, g)
                                     ==> !GapFits(entries, g, size, alignment)
  {
    hide GapFits;
    hide FirstFit;
  }

  /** A gap takes a block exactly when the aligned block, with its tail, ends before the next one starts. */
  lemma GapFitsExactly(entries: seq<Entry>, g: nat, size: nat, alignment: Positive)
    requires g + 1 < |entries| && size < DWORD_VALUES - OVERHEAD
    ensures GapFits(entries, g, size, alignment)
            <==> AlignUp(entries[g].End() + 32, alignment) + size + 4 <= entries[g + 1].address
  {
    hide AlignUp;
    AlignUpNear(entries[g].End() + ENTRY_SIZE, alignment);
  }

  /** The space behind the last block takes a block that leaves room for one more header. */
  lemma PlacesAtEndExactly(h: State, size: nat, alignment: Positive)
    requires size < DWORD_VALUES - OVERHEAD
    ensures PlacesAtEnd(h, size, alignment)
            <==> AlignUp(h.free + 32, alignment) + size + 4 + 32 <= h.base + h.maximum
  {
    hide AlignUp;
    AlignUpNear(h.free + ENTRY_SIZE, alignment);
  }

  /** From the list head the search misses no gap: it fails only when no gap takes the block. */
  lemma SearchFromHeadIsComplete(entries: seq<Entry>, size: nat, alignment: Positive)
    requires 1 <= |entries|
    ensures SearchGap(entries, 0, size, alignment) == NotFound
            <==> forall g: nat :: g + 1 < |entries| ==> !GapFits(entries, g, size, alignment)
  {
    hide GapFits;
    hide SearchGap;
    SearchFailsExactly(entries, 0, size, alignment);
  }

  /** A gap it finds is one that it looks at, and takes the block. */
  lemma FoundGapFits(entries: seq<Entry>, k: nat, size: nat, alignment: Positive)
    requires 1 <= |entries| && k <= |entries| && SearchGap(entries, k, size, alignment).Found?
    ensures
      var g := SearchGap(entries, k, size, alignment).gap;
      g + 1 < |entries| && Examined(|entries|, k, g) && GapFits(entries, g, size, alignment)
  {
    hide GapFits;
    hide FirstFit;
  }

  /** The walk from position k, around the list head, comes to gap f before gap g. */
  predicate Sooner(k: nat, f: nat, g: nat) {
    if g >= k then k <= f < g else f >= k || f < g
  }

  /** Of the gaps that are looked at, g is the first on the walk that takes the block. */
  ghost predicate IsFirst(entries: seq<Entry>, k: nat, g: nat, size: nat, alignment: Positive) {
    && g + 1 < |entries| && Examined(|entries|, k, g) && GapFits(entries, g, size, alignment)
    && forall f: nat :: f + 1 < |entries| && Examined(|entries|, k, f) && Sooner(k, f, g)
                        ==> !GapFits(entries, f, size, alignment)
  }

  /** First fit from the cursor on: the search finds exactly the first gap on its walk that takes the block. */
  lemma FirstOnTheWalk(entries: seq<Entry>, k: nat, g: nat, size: nat, alignment: Positive)
    requires 1 <= |entries| && k <= |entries|
    ensures SearchGap(entries, k, size, alignment) == Found(g)
            <==> IsFirst(entries, k, g, size, alignment) && !(k >= 3 && k >= |entries| - 1)
  {
    hide GapFits;
    hide FirstFit;
    var n := |entries|;
    if IsFirst(entries, k, g, size, alignment) {
      if g >= k {
        assert forall f: nat :: k <= f < g ==> Examined(n, k, f) && Sooner(k, f, g);
        FirstFitIs(entries, k, n - 1, g, size, alignment);
      } else {
        assert forall f: nat :: (k <= f < n - 1 || 1 <= f < g) ==> Examined(n, k, f) && Sooner(k, f, g);
        FirstFitIs(entries, 1, k - 2, g, size, alignment);
      }
    }
  }

  /** Whatever the blocks, the request and the alignment, a search from position k finds a gap if there is one. */
  ghost predicate MissesNoGap(n: nat, k: nat)
    requires 1 <= n && k <= n
  {
    forall start: nat, entries: seq<Entry>, g: nat, size: nat, alignment: Positive ::
      |entries| == n && FittingGap(start, entries, g, size, alignment)
      ==> SearchGap(entries, k, size, alignment).Found?
  }

  ghost predicate FittingGap(start: nat, entries: seq<Entry>, g: nat, size: nat, alignment: Positive) {
    Ordered(start, entries) && 1 <= size && g + 1 < |entries| && GapFits(entries, g, size, alignment)
  }

  /** n blocks of 64 bytes without gaps, but for one of 64 bytes between blocks g and g + 1. */
  function OneGap(n: nat, g: nat): seq<Entry> {
    seq(n, i requires 0 <= i => Entry(64 * i + (if i > g then 64 else 0), 28, 1, ENTRY_SIZE))
  }

  lemma OnlyOneGap(n: nat, g: nat)
    requires g + 1 < n
    ensures Ordered(0, OneGap(n, g))
    ensures forall f: nat :: f + 1 < n ==> (GapFits(OneGap(n, g), f, 28, 1) <==> f == g)
  {
    forall f: nat | f + 1 < n
      ensures GapFits(OneGap(n, g), f, 28, 1) <==> f == g
    {
      PaddingAligns(OneGap(n, g)[f].End(), 1);
    }
  }

  /** The search can be trusted exactly when it starts at the list head (or there is no gap to miss). */
  lemma MissesNoGapExactly(n: nat, k: nat)
    requires 1 <= n && k <= n
    ensures MissesNoGap(n, k) <==> k == 0 || n <= 1
  {
    hide GapFits;
    hide Ordered;
    if k == 0 || n <= 1 {
      forall start: nat, entries: seq<Entry>, g: nat, size: nat, alignment: Positive
        | |entries| == n && FittingGap(start, entries, g, size, alignment)
        ensures SearchGap(entries, k, size, alignment).Found?
      {
        SearchFailsExactly(entries, k, size, alignment);
      }
    } else {
      var g: nat := if k == n then n - 2 else k - 1;
      OnlyOneGap(n, g);
      if SearchGap(OneGap(n, g), k, 28, 1).Found? {
        FoundGapFits(OneGap(n, g), k, 28, 1);
      }
      assert FittingGap(0, OneGap(n, g), g, 28, 1);
    }
  }

  lemma {:induction false} GapsAddUp(h: State, n: nat, g: nat)
    requires Valid(h) && n <= |h.entries|
    ensures TotalGaps(h, n) >= 0
    ensures g + 1 < n ==> h.entries[g + 1].address - h.entries[g].End() <= TotalGaps(h, n)
  {
    hide TotalSize;
    if n == 0 {
    } else {
      GapsAddUp(h, n - 1, g);
      assert EndBefore(h, n - 1) <= h.entries[n - 1].address;
    }
  }

  /** An allocation runs out of memory exactly when neither the tail takes the block nor a gap that is looked at. */
  lemma AllocateFailsExactly(h: State, size: nat, tag: nat, requested: nat)
    requires Valid(h) && size > 0 && tag > 0 && Position(h.entries, h.cursor).Some?
    ensures
      var a, n, k := AlignmentFor(requested), |h.entries|, Position(h.entries, h.cursor).value;
      Allocate(h, size, tag, requested).1 == Failed(NoMoreMemory)
      <==> && !PlacesAtEnd(h, size, a)
           && (size + OVERHEAD > TotalGaps(h, n)
               || (!CursorNearEnd(h)
                   && forall g: nat :: g + 1 < n && Examined(n, k, g) ==> !GapFits(h.entries, g, size, a)))
  {
    hide GapFits;
    hide Fits;
    hide Ordered;
    hide TotalSize;
    hide SearchGap;
    BeforeFreeIsTotalGaps(h);
    GapsAddUp(h, |h.entries|, 0);
    if h.entries != [] {
      SearchFailsExactly(h.entries, Position(h.entries, h.cursor).value, size, AlignmentFor(requested));
    }
  }

  /** With the cursor at the list head, memory runs out exactly when neither the tail nor any gap takes the block. */
  lemma AllocateFromHeadIsComplete(h: State, size: nat, tag: nat, requested: nat)
    requires Valid(h) && size > 0 && tag > 0 && h.cursor == ListHead
    ensures
      Allocate(h, size, tag, requested).1 == Failed(NoMoreMemory)
      <==> && !PlacesAtEnd(h, size, AlignmentFor(requested))
           && forall g: nat :: g + 1 < |h.entries| ==> !GapFits(h.entries, g, size, AlignmentFor(requested))
  {
    hide Fits;
    hide Ordered;
    hide TotalSize;
    hide Allocate;
    AllocateFailsExactly(h, size, tag, requested);
    forall g: nat | g + 1 < |h.entries| && GapFits(h.entries, g, size, AlignmentFor(requested))
      ensures size + OVERHEAD <= TotalGaps(h, |h.entries|)
    {
      GapsAddUp(h, |h.entries|, g);
    }
  }

  lemma NewEntryIs(start: nat, size: nat, tag: nat, alignment: Positive)
    ensures
      var e := NewEntry(start, size, tag, alignment);
      e.Data() == AlignUp(start + ENTRY_SIZE, alignment) && e.address == e.Data() - ENTRY_SIZE
  {
    hide AlignUp;
  }

  /** Where a new block goes: behind the last one if it fits there, else into the first gap on the walk. */
  lemma AllocateTakesTheFirst(h: State, size: nat, tag: nat, requested: nat)
    requires Valid(h) && Allocate(h, size, tag, requested).1.Done? && size < DWORD_VALUES - OVERHEAD
    ensures
      var (r, out) := Allocate(h, size, tag, requested);
      var a := AlignmentFor(requested);
      if PlacesAtEnd(h, size, a) then
        out.data == AlignUp(h.free + ENTRY_SIZE, a) && r.cursor == h.cursor
      else
        && Position(h.entries, h.cursor).Some?
        && exists g: nat :: IsFirst(h.entries, Position(h.entries, h.cursor).value, g, size, a)
                         && out.data == AlignUp(h.entries[g].End() + ENTRY_SIZE, a)
                         && r.cursor == EntryAt(out.data - ENTRY_SIZE)
  {
    hide Ordered, TotalSize, Fits, IsFirst, NewEntry, FirstFit, SearchGap, AlignUp;
    var (r, out) := Allocate(h, size, tag, requested);
    var a := AlignmentFor(requested);
    if PlacesAtEnd(h, size, a) {
      NewEntryIs(h.free, size, tag, a);
    } else {
      var k := Position(h.entries, h.cursor).value;
      var g := SearchGap(h.entries, k, size, a).gap;
      FoundGapFits(h.entries, k, size, a);
      FirstOnTheWalk(h.entries, k, g, size, a);
      NewEntryIs(h.entries[g].End(), size, tag, a);
    }
  }

  // ----- freeing

  lemma AddressesDiffer(h: State, i: nat, j: nat)
    requires Valid(h) && i < |h.entries| && j < |h.entries| && i != j
    ensures h.entries[i].address != h.entries[j].address
  {
    if i < j {
      assert h.entries[i].End() <= h.entries[j].address;
    } else {
      assert h.entries[j].End() <= h.entries[i].address;
    }
  }

  lemma LiveEntryIsOk(h: State, i: nat)
    requires Valid(h) && i < |h.entries|
    ensures EntryOk(h.entries[i])
  {
  }

  lemma FindIs(h: State, i: nat)
    requires Valid(h) && i < |h.entries|
    ensures Find(h.entries, h.entries[i].Data()) == Some(i)
  {
    var j := Find(h.entries, h.entries[i].Data()).value;
    if i != j {
      AddressesDiffer(h, i, j);
    }
  }

  lemma PlacementUndone(h: State, r: State, i: nat, e: Entry)
    requires Valid(h) && Valid(r) && h.base == r.base && h.maximum == r.maximum && Inserted(h, r, i, e) && e.tag >= 0
    ensures Free(r, e.Data(), e.tag) == (h.(cursor := r.cursor), Done(e.Data()))
  {
    hide Ordered;
    hide TotalSize;
    hide Find;
    assert r.entries[i] == e;
    LiveEntryIsOk(r, i);
    FindIs(r, i);
    assert Without(r.entries, i) == h.entries;
    FreeValid(r, i);
    SameListSameHeap(h, FreeEntry(r, i));
  }

  lemma PlacedUndone(h: State, r: State, data: nat, size: nat, tag: nat, alignment: Positive)
    requires Valid(h) && Valid(r) && Placed(h, r, data, size, tag, alignment)
    ensures Free(r, data, tag) == (h.(cursor := r.cursor), Done(data))
  {
    hide Valid;
    hide Inserted;
    hide Free;
    hide Remainder;
    hide PowerOfTwo;
    var e := Entry(data - ENTRY_SIZE, size, tag, ENTRY_SIZE);
    var i: nat :| Inserted(h, r, i, e);
    PlacementUndone(h, r, i, e);
  }

  /** Freeing what was just allocated gives back the heap, but for the search cursor. */
  lemma FreeUndoesAllocate(h: State, size: nat, tag: nat, requested: nat)
    requires Valid(h) && size < DWORD_VALUES - OVERHEAD && Allocate(h, size, tag, requested).1.Done?
    ensures var (r, out) := Allocate(h, size, tag, requested);
            Free(r, out.data, tag) == (h.(cursor := r.cursor), Done(out.data))
  {
    AllocateIsSound(h, size, tag, requested);
    var (r, out) := Allocate(h, size, tag, requested);
    PlacedUndone(h, r, out.data, size, tag, AlignmentFor(requested));
  }

  /** A valid heap's counters and tail pointer are determined by its blocks. */
  lemma SameListSameHeap(h: State, r: State)
    requires Valid(h) && Valid(r) && h.base == r.base && h.maximum == r.maximum && h.entries == r.entries
    ensures r == h.(cursor := r.cursor)
  {
  }

  /** A free is done exactly for a live block of that tag; a wrong tag, or none, stops the system. */
  lemma FreeExactly(h: State, i: nat, tag: nat)
    requires Valid(h) && i < |h.entries|
    ensures
      var e := h.entries[i];
      Free(h, e.Data(), tag) == if tag == e.tag then (FreeEntry(h, i), Done(e.Data())) else (h, Stopped)
  {
    hide Ordered;
    hide TotalSize;
    LiveEntryIsOk(h, i);
    FindIs(h, i);
  }

  /** The search cursor stays in the list unless its own block is freed; then the next search walks
      through freed memory. */
  lemma FreeAndCursor(h: State, i: nat)
    requires Valid(h) && i < |h.entries| && Position(h.entries, h.cursor).Some?
    ensures Position(FreeEntry(h, i).entries, h.cursor).Some? <==> h.cursor != EntryAt(h.entries[i].address)
  {
    hide TotalSize;
    hide Ordered;
    var rest := Without(h.entries, i);
    var k := Position(h.entries, h.cursor).value;
    if k > 0 && k - 1 != i {
      assert rest[if k - 1 < i then k - 1 else k - 2] == h.entries[k - 1];
    }
    if h.cursor == EntryAt(h.entries[i].address) {
      forall j: nat | j < |rest| ensures rest[j].address != h.entries[i].address {
        AddressesDiffer(h, if j < i then j else j + 1, i);
      }
    }
  }

  lemma AllocateKeepsCursor(h: State, size: nat, tag: nat, requested: nat)
    requires Valid(h) && size < DWORD_VALUES - OVERHEAD && Position(h.entries, h.cursor).Some?
    ensures var r := Allocate(h, size, tag, requested).0; Position(r.entries, r.cursor).Some?
  {
    hide Ordered;
    hide TotalSize;
    hide Fits;
    hide NewEntry;
    hide FirstFit;
    var (r, out) := Allocate(h, size, tag, requested);
    if out.Done? {
      var alignment := AlignmentFor(requested);
      var k := Position(h.entries, h.cursor).value;
      if PlacesAtEnd(h, size, alignment) {
        if k > 0 {
          assert r.entries[k - 1] == h.entries[k - 1];
        }
      } else {
        var g := SearchGap(h.entries, k, size, alignment).gap;
        assert r.cursor == EntryAt(r.entries[g + 1].address);
      }
    }
  }

  // ----- whole histories

  datatype Call = AllocateCall(size: nat, tag: nat, alignment: nat) | FreeCall(data: nat, tag: nat)

  function Perform(h: State, call: Call): (State, Outcome) {
    match call
    case AllocateCall(size, tag, alignment) => Allocate(h, size, tag, alignment)
    case FreeCall(data, tag) => Free(h, data, tag)
  }

  /** The state after a history of calls; a call that does not return ends it. */
  function Run(h: State, calls: seq<Call>): State
    decreases |calls|
  {
    if calls == [] then h
    else
      var (r, out) := Perform(h, calls[0]);
      if out == Stopped || out == Wild then r else Run(r, calls[1..])
  }

  /** Whatever the callers do, as long as no request is so large that its header and tail push it past a
      DWORD: the blocks stay ordered, apart and inside the heap, the tail pointer is the end of the last
      one, and the byte and block counts are right. */
  lemma {:induction false} EveryHistoryIsValid(h: State, calls: seq<Call>)
    requires Valid(h)
    requires forall c :: c in calls && c.AllocateCall? ==> c.size < DWORD_VALUES - OVERHEAD
    ensures Valid(Run(h, calls))
    decreases |calls|
  {
    if calls == [] {
    } else {
      var c := calls[0];
      match c {
        case AllocateCall(size, tag, alignment) => AllocateIsSound(h, size, tag, alignment);
        case FreeCall(data, tag) =>
          var found := Find(h.entries, data);
          if found.Some? {
            FreeValid(h, found.value);
          }
      }
      EveryHistoryIsValid(Perform(h, c).0, calls[1..]);
    }
  }

  // ----- runs from a fresh heap that end badly

  lemma RunStep(h: State, c: Call, rest: seq<Call>)
    requires Perform(h, c).1.Done?
    ensures Run(h, [c] + rest) == Run(Perform(h, c).0, rest)
  {
    assert ([c] + rest)[1..] == rest;
  }

  lemma DefaultPadding(start: nat)
    ensures Padding(start, 16) == 15 - (start + 47) % 16
  {
    assert PowerOfTwo(2) && PowerOfTwo(4) && PowerOfTwo(8) && PowerOfTwo(16);
    MaskIsRemainder(start + 47, 16);
  }

  /** An allocation with tag 1 and the default alignment that goes behind the last block. */
  lemma TailCall(h: State, size: nat, address: nat, r: State)
    requires 1 <= size < DWORD_VALUES - OVERHEAD && size + OVERHEAD <= h.remaining
    requires address == h.free + 15 - (h.free + 47) % 16
    requires address + size + OVERHEAD + ENTRY_SIZE <= h.base + h.maximum
    requires
      var e := Entry(address, size, 1, ENTRY_SIZE);
      r == State(h.base, h.maximum, h.remaining - size - OVERHEAD, e.End(), h.count + 1, h.cursor, h.entries + [e])
    ensures Allocate(h, size, 1, 0) == (r, Done(address + ENTRY_SIZE))
  {
    hide Padding;
    DefaultPadding(h.free);
    assert h.entries[..|h.entries|] + [r.entries[|h.entries|]] + h.entries[|h.entries|..] == r.entries;
  }

  /** The five blocks at the start of the run below, and the block that takes the place of the fourth. */
  function Blocks(): (blocks: seq<Entry>)
    ensures |blocks| == 5
  {
    [Entry(4176, 100, 1, ENTRY_SIZE), Entry(4320, 100, 1, ENTRY_SIZE), Entry(4464, 100, 1, ENTRY_SIZE),
     Entry(4608, 20000, 1, ENTRY_SIZE), Entry(24656, 44000, 1, ENTRY_SIZE)]
  }

  function FiveCalls(): seq<Call> {
    var small := AllocateCall(100, 1, 0);
    [small, small, small, AllocateCall(20000, 1, 0), AllocateCall(44000, 1, 0)]
  }

  lemma FiveBlocks(rest: seq<Call>)
    ensures Run(Init(4096, 65536), FiveCalls() + rest)
         == Run(State(4096, 65536, 984, 68692, 5, ListHead, Blocks()), rest)
  {
    hide Allocate;
    hide Run;
    var b := Blocks();
    var h0 := Init(4096, 65536);
    var h1 := State(4096, 65536, 65328, 4312, 1, ListHead, b[..1]);
    var h2 := State(4096, 65536, 65192, 4456, 2, ListHead, b[..2]);
    var h3 := State(4096, 65536, 65056, 4600, 3, ListHead, b[..3]);
    var h4 := State(4096, 65536, 45020, 24644, 4, ListHead, b[..4]);
    TailCall(h0, 100, 4176, h1);
    TailCall(h1, 100, 4320, h2);
    TailCall(h2, 100, 4464, h3);
    TailCall(h3, 20000, 4608, h4);
    TailCall(h4, 44000, 24656, State(4096, 65536, 984, 68692, 5, ListHead, b));
    var small, c4, c5 := AllocateCall(100, 1, 0), AllocateCall(20000, 1, 0), AllocateCall(44000, 1, 0);
    var tail := [c5] + rest;
    assert FiveCalls() + rest == [small] + ([small] + ([small] + ([c4] + tail)));
    RunStep(h0, small, [small] + ([small] + ([c4] + tail)));
    RunStep(h1, small, [small] + ([c4] + tail));
    RunStep(h2, small, [c4] + tail);
    RunStep(h3, c4, tail);
    RunStep(h4, c5, rest);
  }

  /** The gap that the fourth block leaves takes a block of 1000 bytes, and the cursor goes there. */
  lemma GapCall()
    ensures
      var b := Blocks();
      var h := State(4096, 65536, 21020, 68692, 4, ListHead, b[..3] + b[4..]);
      var e := Entry(4608, 1000, 1, ENTRY_SIZE);
      Allocate(h, 1000, 1, 0)
      == (State(4096, 65536, 19984, 68692, 5, EntryAt(4608), b[..3] + [e] + b[4..]), Done(4640))
  {
    hide Padding;
    var b := Blocks();
    var blocks := b[..3] + b[4..];
    DefaultPadding(4600);
    assert !GapFits(blocks, 0, 1000, 16) && !GapFits(blocks, 1, 1000, 16) && GapFits(blocks, 2, 1000, 16);
    FirstFitIs(blocks, 0, 3, 2, 1000, 16);
    assert blocks[..3] == b[..3] && blocks[3..] == b[4..];
  }

  /** The heap when the fourth of the five blocks has been freed, and with a block of 1000 bytes in its place. */
  function FourthFreed(cursor: Link): State {
    State(4096, 65536, 21020, 68692, 4, cursor, Blocks()[..3] + Blocks()[4..])
  }

  function GapTaken(): State {
    State(4096, 65536, 19984, 68692, 5, EntryAt(4608),
          Blocks()[..3] + [Entry(4608, 1000, 1, ENTRY_SIZE)] + Blocks()[4..])
  }

  /** Five blocks, the fourth freed and its gap taken by a smaller one, which leaves the cursor there. */
  function SevenCalls(): seq<Call> {
    FiveCalls() + [FreeCall(4640, 1), AllocateCall(1000, 1, 0)]
  }

  lemma SevenBlocks(rest: seq<Call>)
    ensures Run(Init(4096, 65536), SevenCalls() + rest) == Run(GapTaken(), rest)
  {
    hide Allocate;
    hide Run;
    var b := Blocks();
    var h5 := State(4096, 65536, 984, 68692, 5, ListHead, b);
    var free, again := FreeCall(4640, 1), AllocateCall(1000, 1, 0);
    assert SevenCalls() + rest == FiveCalls() + ([free] + ([again] + rest));
    FiveBlocks([free] + ([again] + rest));
    assert b[..4][3] == b[3] && Find(b[..4], 4640) == Some(3);
    assert Free(h5, 4640, 1) == (FourthFreed(ListHead), Done(4640));
    RunStep(h5, free, [again] + rest);
    GapCall();
    RunStep(FourthFreed(ListHead), again, rest);
  }

  /** The assert on a NULL previous entry is reached from a fresh heap: the next request of that size stops. */
  lemma StopIsReachable()
    ensures Allocate(Run(Init(4096, 65536), SevenCalls()), 1000, 1, 0).1 == Stopped
  {
    hide Run;
    assert SevenCalls() + [] == SevenCalls();
    SevenBlocks([]);
    RunNothing(GapTaken());
    var entries := GapTaken().entries;
    assert entries[4].address == 24656 && entries[3].address == 4608;
    assert Position(entries, EntryAt(4608)) == Some(4);
  }

  /** So is the walk through a freed entry: the block with the cursor is freed, and the next request is Wild. */
  lemma WildIsReachable()
    ensures Allocate(Run(Init(4096, 65536), SevenCalls() + [FreeCall(4640, 1)]), 1000, 1, 0).1 == Wild
  {
    hide Run;
    hide SevenCalls;
    var h, free := GapTaken(), FreeCall(4640, 1);
    SevenBlocks([free]);
    assert h.entries[..4][3].Data() == 4640 && Find(h.entries[..4], 4640) == Some(3);
    var r := FourthFreed(EntryAt(4608));
    assert Without(h.entries, 3) == r.entries;
    assert Free(h, 4640, 1) == (r, Done(4640));
    assert [free] + [] == [free];
    RunStep(h, free, []);
    RunNothing(r);
    assert r.entries[3].address == 24656 && Position(r.entries, EntryAt(4608)) == None;
  }

  lemma RunNothing(h: State)
    ensures Run(h, []) == h
  {
  }

  /** Three blocks, the second freed and its place taken by one of 1000 bytes, with a gap behind it. */
  function MissCalls(): seq<Call> {
    [AllocateCall(100, 1, 0), AllocateCall(20000, 1, 0), AllocateCall(44500, 1, 0), FreeCall(4352, 1),
     AllocateCall(1000, 1, 0)]
  }

  function MissState(): State {
    State(4096, 65536, 19756, 68904, 3, EntryAt(4320),
          [Entry(4176, 100, 1, ENTRY_SIZE), Entry(4320, 1000, 1, ENTRY_SIZE), Entry(24368, 44500, 1, ENTRY_SIZE)])
  }

  lemma MissRun()
    ensures Run(Init(4096, 65536), MissCalls()) == MissState()
  {
    hide Run;
    hide Allocate;
    var a, b := Entry(4176, 100, 1, ENTRY_SIZE), Entry(4320, 20000, 1, ENTRY_SIZE);
    var c := Entry(24368, 44500, 1, ENTRY_SIZE);
    var h0 := Init(4096, 65536);
    var h1 := State(4096, 65536, 65328, 4312, 1, ListHead, [a]);
    var h2 := State(4096, 65536, 45292, 24356, 2, ListHead, [a, b]);
    var h3 := State(4096, 65536, 756, 68904, 3, ListHead, [a, b, c]);
    var h4 := State(4096, 65536, 20792, 68904, 2, ListHead, [a, c]);
    TailCall(h0, 100, 4176, h1);
    TailCall(h1, 20000, 4320, h2);
    TailCall(h2, 44500, 24368, h3);
    assert h3.entries[..2] == [a, b] && Find([a, b], 4352) == Some(1);
    assert Without(h3.entries, 1) == [a, c];
    assert Free(h3, 4352, 1) == (h4, Done(4352));
    MissGap();
    var calls := MissCalls();
    RunStep(h0, calls[0], calls[1..]);
    RunStep(h1, calls[1], calls[2..]);
    RunStep(h2, calls[2], calls[3..]);
    RunStep(h3, calls[3], calls[4..]);
    RunStep(h4, calls[4], []);
    RunNothing(MissState());
    assert calls == [calls[0]] + calls[1..] && calls[1..] == [calls[1]] + calls[2..];
    assert calls[2..] == [calls[2]] + calls[3..] && calls[3..] == [calls[3]] + calls[4..];
    assert calls[4..] == [calls[4]] + [];
  }

  lemma MissGap()
    ensures
      var a, c := Entry(4176, 100, 1, ENTRY_SIZE), Entry(24368, 44500, 1, ENTRY_SIZE);
      Allocate(State(4096, 65536, 20792, 68904, 2, ListHead, [a, c]), 1000, 1, 0) == (MissState(), Done(4352))
  {
    hide Padding;
    var blocks := [Entry(4176, 100, 1, ENTRY_SIZE), Entry(24368, 44500, 1, ENTRY_SIZE)];
    DefaultPadding(4312);
    assert GapFits(blocks, 0, 1000, 16);
    FirstFitIs(blocks, 0, 1, 0, 1000, 16);
    assert blocks[..1] + [Entry(4320, 1000, 1, ENTRY_SIZE)] + blocks[1..] == MissState().entries;
  }

  /** From an entry the search can fail although a gap takes the block: the cursor stays before the gap that
      the last allocation left behind its block, and the search begins with the next one. */
  lemma SearchFromEntryIsNot()
    ensures
      var h := Run(Init(4096, 65536), MissCalls());
      && |h.entries| == 3 && GapFits(h.entries, 1, 1000, 16)
      && Allocate(h, 1000, 1, 16) == (h, Failed(NoMoreMemory))
  {
    hide Padding;
    hide Run;
    MissRun();
    var h := MissState();
    DefaultPadding(5356);
    DefaultPadding(4312);
    assert h.entries[1].End() == 5356;
    assert Position(h.entries, h.cursor) == Some(2);
  }

  // ----- the heap in memory

  datatype InitStatus = Ready | NullBase | TooSmall

  /** HEAP_HEADER, updated in place. */
  class HeapHeader {
    const BaseAddress: nat
    const HeapSizeMaximum: nat
    var HeapSizeRemaining: int
    var FreeAddress: nat
    var HeapNumberOfAllocations: int
    var EntryToRestartSearch: Link
    var HeapAllocations: seq<Entry>

    function Abstract(): State
      reads this
    {
      State(BaseAddress, HeapSizeMaximum, HeapSizeRemaining, FreeAddress, HeapNumberOfAllocations,
            EntryToRestartSearch, HeapAllocations)
    }

    /** The header that ClHeapInit writes. */
    constructor (base: nat, available: nat)
      requires 0 < base && base + available <= QWORD_VALUES && HEAP_MINIMUM_SIZE <= available < INT64_LIMIT
      ensures Valid(Abstract()) && Abstract() == Init(base, available)
    {
      BaseAddress := base;
      HeapSizeMaximum := available;
      HeapSizeRemaining := available - HEADER_SIZE;
      HeapNumberOfAllocations := 0;
      EntryToRestartSearch := ListHead;
      FreeAddress := base + HEADER_SIZE;
      HeapAllocations := [];
    }

    /** ClHeapInit, on a range of addresses below 2^64 that is shorter than 2^63. */
    static method ClHeapInit(base: nat, available: nat) returns (status: InitStatus, h: HeapHeader?)
      requires base + available <= QWORD_VALUES && available < INT64_LIMIT
      ensures status == if base == 0 then NullBase else if available < 0x1_0000 then TooSmall else Ready
      ensures status.Ready? <==> h != null
      ensures status.Ready? ==> fresh(h) && Valid(h.Abstract()) && h.Abstract() == Init(base, available)
    {
      if base == 0 {
        return NullBase, null;
      }
      if available < HEAP_MINIMUM_SIZE {
        return TooSmall, null;
      }
      h := new HeapHeader(base, available);
      status := Ready;
    }

    /** The next position in the ring of the list head (0) and the entries. */
    function Flink(position: nat): nat
      reads this
    {
      if position == |HeapAllocations| then 0 else position + 1
    }

    /** The test of one pair of neighbours in the walk: the block before is taken from a heap-entry pointer. */
    method TryGap(previousHeap: nat, current: nat, size: nat, alignment: Positive) returns (fits: bool)
      requires Ordered(BaseAddress + HEADER_SIZE, HeapAllocations)
      requires 1 <= previousHeap <= |HeapAllocations| && 1 <= current <= |HeapAllocations|
      ensures previousHeap + 1 == current ==> fits == GapFits(HeapAllocations, previousHeap - 1, size, alignment)
      ensures previousHeap > current ==> !fits
    {
      var startAddress := HeapAllocations[previousHeap - 1].End();
      var sizeBetweenEntries := HeapAllocations[current - 1].address - startAddress;
      fits := sizeBetweenEntries >= size + OVERHEAD && Fits(startAddress, sizeBetweenEntries, size, alignment);
      if previousHeap > current {
        assert HeapAllocations[current - 1].End() <= HeapAllocations[previousHeap - 1].address;
      }
    }

    /** The pointer-walking loop of lines 235-289. A heap-entry pointer is NULL or the record of a ring position;
        the one for the previous entry can be stale after the walk has passed the list head. */
    method WalkGaps(start: nat, size: nat, alignment: Positive) returns (result: Search)
      requires Ordered(BaseAddress + HEADER_SIZE, HeapAllocations) && 1 <= |HeapAllocations|
      requires start <= |HeapAllocations|
      ensures result == SearchGap(HeapAllocations, start, size, alignment)
    {
      var n := |HeapAllocations|;
      hide GapFits;
      var previous: nat := Flink(start);
      var previousHeap: Option<nat> := Some(previous);
      var current: nat := Flink(previous);
      var currentHeap: Option<nat> := None;
      while current != start
        invariant previous <= n
        invariant current == Flink(previous)
        invariant previous > start || previous < start
        invariant previous > start ==>
                    && previousHeap == Some(previous)
                    && currentHeap == (if previous == start + 1 then None else Some(previous))
                    && NoneFits(HeapAllocations, start, previous - 1, size, alignment)
        invariant previous < start ==>
                    && NoneFits(HeapAllocations, start, n - 1, size, alignment)
                    && (previous <= 1 ==> currentHeap == (if start + 1 < n then Some(n) else None))
                    && (previous == 1 ==> previousHeap == currentHeap)
                    && (previous >= 2 ==>
                          && start + 1 < n && previousHeap == currentHeap == Some(previous)
                          && NoneFits(HeapAllocations, 1, previous - 1, size, alignment))
        decreases if current > start then n + 1 - current + start else start - current
      {
        if current != 0 && previous != 0 {
          if previousHeap == None {
            return NullPrevious;
          }
          currentHeap := Some(current);
          var fits := TryGap(previousHeap.value, current, size, alignment);
          if fits {
            if previous < start {
              FirstFitIs(HeapAllocations, 1, start - 2, previous - 1, size, alignment);
            } else {
              FirstFitIs(HeapAllocations, start, n - 1, previous - 1, size, alignment);
            }
            return Found(previous - 1);
          }
        }
        previous, previousHeap := current, currentHeap;
        current := Flink(current);
      }
      return NotFound;
    }

    /** Lines 214-297: a block between two others. */
    method AllocateBetween(size: nat, tag: nat, alignment: Positive) returns (out: Outcome)
      requires Valid(Abstract())
      modifies this
      ensures (Abstract(), out) == AllocateBeforeFree(old(Abstract()), size, tag, alignment)
    {
      hide NewEntry, Fits, SearchGap, GapFits, Ordered, TotalSize, Position;
      assert Ordered(BaseAddress + HEADER_SIZE, HeapAllocations);
      var untilEnd := BaseAddress + HeapSizeMaximum - FreeAddress - ENTRY_SIZE;
      if size + OVERHEAD > HeapSizeRemaining - untilEnd - ENTRY_SIZE {
        return Failed(NoMoreMemory);
      }
      if HeapAllocations == [] {
        return Stopped;
      }
      var start := Position(HeapAllocations, EntryToRestartSearch);
      if start == None {
        return Wild;
      }
      var search := WalkGaps(start.value, size, alignment);
      match search {
        case NullPrevious =>
          return Stopped;
        case NotFound =>
          return Failed(NoMoreMemory);
        case Found(g) =>
          FoundGapFits(HeapAllocations, start.value, size, alignment);
          var e := InitHeapEntry(HeapAllocations[g].End(), size, tag, alignment);
          HeapAllocations := HeapAllocations[..g + 1] + [e] + HeapAllocations[g + 1..];
          EntryToRestartSearch := EntryAt(e.address);
          return Done(e.Data());
      }
    }

    /** ClHeapAllocatePoolWithTag, but for its flags. */
    method AllocatePool(size: nat, tag: nat, requested: nat) returns (out: Outcome)
      requires Valid(Abstract())
      modifies this
      ensures (Abstract(), out) == Allocate(old(Abstract()), size, tag, requested)
    {
      hide NewEntry, Fits, AllocateBeforeFree, Ordered, TotalSize;
      if size == 0 {
        return Failed(InvalidSize);
      }
      if tag == 0 {
        return Failed(InvalidTag);
      }
      var alignment := AlignmentFor(requested);
      if size + OVERHEAD > HeapSizeRemaining {
        return Failed(NoMoreMemory);
      }
      var untilEnd := BaseAddress + HeapSizeMaximum - FreeAddress - ENTRY_SIZE;
      if size + OVERHEAD <= untilEnd && Fits(FreeAddress, untilEnd, size, alignment) {
        var e := InitHeapEntry(FreeAddress, size, tag, alignment);
        ghost var was := HeapAllocations;
        HeapAllocations := HeapAllocations + [e];
        assert HeapAllocations == was[..|was|] + [e] + was[|was|..];
        FreeAddress := e.End();
        return Done(e.Data());
      }
      out := AllocateBetween(size, tag, alignment);
    }

    /** The PoolAllocatePanicIfFail flag (lines 303-308): a failure stops the system. */
    method AllocatePoolWithTag(panicIfFail: bool, size: nat, tag: nat, requested: nat) returns (out: Outcome)
      requires Valid(Abstract())
      modifies this
      ensures Abstract() == Allocate(old(Abstract()), size, tag, requested).0
      ensures var plain := Allocate(old(Abstract()), size, tag, requested).1;
              out == if panicIfFail && plain.Failed? then Stopped else plain
    {
      hide Allocate;
      out := AllocatePool(size, tag, requested);
      if panicIfFail && out.Failed? {
        return Stopped;
      }
    }

    /** _InitHeapEntry once its size test has passed; the caller links the entry in. */
    method InitHeapEntry(start: nat, size: nat, tag: nat, alignment: Positive) returns (e: Entry)
      modifies this`HeapSizeRemaining, this`HeapNumberOfAllocations
      ensures e == NewEntry(start, size, tag, alignment) && e.size == size
      ensures HeapSizeRemaining == old(HeapSizeRemaining) - EntryBytes(size)
      ensures HeapNumberOfAllocations == old(HeapNumberOfAllocations) + 1
    {
      var unaligned := start + ENTRY_SIZE;
      AlignUpNear(unaligned, alignment);
      var dataAddress := AlignUp(unaligned, alignment);
      e := Entry(dataAddress - ENTRY_SIZE, size, tag, ENTRY_SIZE);
      HeapSizeRemaining := HeapSizeRemaining - EntryBytes(size);
      HeapNumberOfAllocations := HeapNumberOfAllocations + 1;
    }

    /** ClHeapFreePoolWithTag. */
    method FreePoolWithTag(data: nat, tag: nat) returns (out: Outcome)
      requires Valid(Abstract())
      modifies this
      ensures (Abstract(), out) == Free(old(Abstract()), data, tag)
      ensures Valid(Abstract())
    {
      hide TotalSize, Ordered, Find;
      var found := Find(HeapAllocations, data);
      if found == None {
        return Wild;
      }
      ghost var before := Abstract();
      var i := found.value;
      var entry := HeapAllocations[i];
      if tag == 0 || entry.tag != tag {
        return Stopped;
      }
      LiveEntryIsOk(before, i);
      FreeValid(before, i);
      var endAddress := data + entry.size + TAIL_SIZE;
      var previousAddress := if i == 0 then BaseAddress + HEADER_SIZE
                             else HeapAllocations[i - 1].address + ENTRY_SIZE + HeapAllocations[i - 1].size + TAIL_SIZE;
      HeapAllocations := HeapAllocations[..i] + HeapAllocations[i + 1..];
      HeapSizeRemaining := HeapSizeRemaining + (entry.size + ENTRY_SIZE + TAIL_SIZE);
      HeapNumberOfAllocations := HeapNumberOfAllocations - 1;
      if endAddress == FreeAddress {
        FreeAddress := previousAddress;
      }
      assert Abstract() == FreeEntry(before, i);
      return Done(data);
    }
  }
}
