/**
 The bitmap of CommonLib/src/bitmap.c: bits packed into bytes, first-fit search for a run of equal
 bits, and scan-and-flip allocation. A bitmap is specified by its bits as a sequence of booleans.
 */
module FirstFitBitmap {
  import opened Basics
  import opened MachineWords

  const BITMAP_ENTRY_BITS: nat := 8

  // ---------------------------------------------------------------------------------------------
  // Bits inside bytes
  // ---------------------------------------------------------------------------------------------

  /** 1 << k in a byte. */
  function Mask(k: nat): bv8
    requires k < BITMAP_ENTRY_BITS
  {
    if k == 0 then 1 else if k == 1 then 2 else if k == 2 then 4 else if k == 3 then 8
    else if k == 4 then 16 else if k == 5 then 32 else if k == 6 then 64 else 128
  }

  function And(x: bv8, m: bv8): bv8 {
    x & m
  }

  /** The byte with the bits of a mask set or cleared. */
  function With(x: bv8, m: bv8, value: bool): bv8 {
    if value then x | m else x & !m
  }

  lemma MasksAreApart(x: bv8, m: bv8, n: bv8, value: bool)
    requires And(m, n) == 0
    ensures And(With(x, m, value), n) == And(x, n)
  {
  }

  lemma OwnMask(x: bv8, m: bv8)
    ensures And(With(x, m, true), m) == m && And(With(x, m, false), m) == 0
  {
  }

  /** IsBooleanFlagOn(x, 1 << k). */
  predicate BitOf(x: bv8, k: nat)
    requires k < BITMAP_ENTRY_BITS
  {
    And(x, Mask(k)) == Mask(k)
  }

  /** Each mask is the one before it, shifted. */
  lemma MaskDoubles(k: nat)
    requires k + 1 < BITMAP_ENTRY_BITS
    ensures Mask(k + 1) == Mask(k) + Mask(k) && 0 < Mask(k) < 0x80
  {
  }

  lemma ShiftedApart(m: bv8, n: bv8)
    requires And(m, n) == 0 && m < 0x80 && n < 0x80
    ensures And(m + m, n + n) == 0
  {
  }

  lemma FirstMaskApart(n: bv8)
    ensures And(1, n + n) == 0
  {
  }

  lemma {:induction false} DifferentMasksApart(k: nat, j: nat)
    requires k < j < BITMAP_ENTRY_BITS
    ensures And(Mask(k), Mask(j)) == 0
  {
    hide Mask;
    hide And;
    MaskDoubles(j - 1);
    if k == 0 {
      FirstMaskApart(Mask(j - 1));
      FirstMask();
    } else {
      MaskDoubles(k - 1);
      DifferentMasksApart(k - 1, j - 1);
      ShiftedApart(Mask(k - 1), Mask(j - 1));
    }
  }

  lemma FirstMask()
    ensures Mask(0) == 1
  {
  }

  lemma MaskIsNotZero(k: nat)
    requires k < BITMAP_ENTRY_BITS
    ensures Mask(k) != 0
  {
  }

  lemma Commuted(m: bv8, n: bv8)
    ensures And(m, n) == And(n, m)
  {
  }

  lemma ChangedBit(x: bv8, k: nat, j: nat, value: bool)
    requires k < BITMAP_ENTRY_BITS && j < BITMAP_ENTRY_BITS
    ensures BitOf(WithBit(x, k, value), j) == if j == k then value else BitOf(x, j)
  {
    hide Mask;
    hide And;
    hide With;
    if j == k {
      OwnMask(x, Mask(k));
      MaskIsNotZero(k);
    } else {
      if k < j {
        DifferentMasksApart(k, j);
      } else {
        DifferentMasksApart(j, k);
        Commuted(Mask(k), Mask(j));
      }
      MasksAreApart(x, Mask(k), Mask(j), value);
    }
  }

  /** The byte with bit k set or cleared. */
  function WithBit(x: bv8, k: nat, value: bool): bv8
    requires k < BITMAP_ENTRY_BITS
  {
    With(x, Mask(k), value)
  }

  predicate BitAt(bytes: seq<bv8>, i: nat)
    requires i < BITMAP_ENTRY_BITS * |bytes|
  {
    BitOf(bytes[i / BITMAP_ENTRY_BITS], i % BITMAP_ENTRY_BITS)
  }

  function Unpack(bytes: seq<bv8>, n: nat): (bits: seq<bool>)
    requires n <= BITMAP_ENTRY_BITS * |bytes|
    ensures |bits| == n
    ensures forall i :: 0 <= i < n ==> bits[i] == BitAt(bytes, i)
  {
    seq(n, i requires 0 <= i < n => BitAt(bytes, i))
  }

  /** Writing one bit of one byte changes exactly one bit of the bitmap. */
  lemma ChangedByte(bytes: seq<bv8>, n: nat, index: nat, value: bool)
    requires index < n <= BITMAP_ENTRY_BITS * |bytes|
    ensures
      var b := index / BITMAP_ENTRY_BITS;
      var x := WithBit(bytes[b], index % BITMAP_ENTRY_BITS, value);
      Unpack(bytes[b := x], n) == Unpack(bytes, n)[index := value]
  {
    hide Mask;
    hide BitOf;
    hide WithBit;
    var b := index / BITMAP_ENTRY_BITS;
    var x := WithBit(bytes[b], index % BITMAP_ENTRY_BITS, value);
    var changed := bytes[b := x];
    forall i | 0 <= i < n
      ensures BitAt(changed, i) == Unpack(bytes, n)[index := value][i]
    {
      if i / BITMAP_ENTRY_BITS == b {
        ChangedBit(bytes[b], index % BITMAP_ENTRY_BITS, i % BITMAP_ENTRY_BITS, value);
      }
    }
  }

  // ---------------------------------------------------------------------------------------------
  // The specification of scanning and flipping
  // ---------------------------------------------------------------------------------------------

  predicate RunAt(bits: seq<bool>, i: nat, k: nat, v: bool)
    requires i + k <= |bits|
  {
    forall j :: i <= j < i + k ==> bits[j] == v
  }

  /** The least start of a run of k bits equal to v inside the window [lo, hi). */
  function FirstRun(bits: seq<bool>, lo: nat, hi: nat, k: nat, v: bool): Option<nat>
    requires hi <= |bits|
    decreases hi - lo
  {
    if lo + k > hi then None
    else if RunAt(bits, lo, k, v) then Some(lo)
    else if lo == hi then None
    else FirstRun(bits, lo + 1, hi, k, v)
  }

  lemma FirstRunStep(bits: seq<bool>, lo: nat, hi: nat, k: nat, v: bool)
    requires hi <= |bits|
    ensures
      FirstRun(bits, lo, hi, k, v)
      == if lo + k > hi then None
         else if RunAt(bits, lo, k, v) then Some(lo)
         else if lo == hi then None
         else FirstRun(bits, lo + 1, hi, k, v)
  {
  }

  lemma EmptyRun(bits: seq<bool>, i: nat, v: bool)
    requires i <= |bits|
    ensures RunAt(bits, i, 0, v)
  {
  }

  lemma LongerRun(bits: seq<bool>, i: nat, j: nat, k: nat, v: bool)
    requires j < k && i + k <= |bits| && RunAt(bits, i, j, v)
    ensures if bits[i + j] == v then RunAt(bits, i, j + 1, v) else !RunAt(bits, i, k, v)
  {
  }

  function Fill(bits: seq<bool>, i: nat, k: nat, v: bool): (r: seq<bool>)
    requires i + k <= |bits|
    ensures |r| == |bits|
  {
    bits[..i] + seq(k, _ => v) + bits[i + k..]
  }

  lemma FillNone(bits: seq<bool>, i: nat, v: bool)
    requires i <= |bits|
    ensures Fill(bits, i, 0, v) == bits
  {
  }

  lemma FillOneMore(bits: seq<bool>, i: nat, k: nat, v: bool)
    requires i + k < |bits|
    ensures Fill(bits, i, k, v)[i + k := v] == Fill(bits, i, k + 1, v)
  {
  }

  /** First fit: the answer is a start exactly when some run fits in the window, and then the least one. */
  lemma {:induction false} FirstRunIsLeast(bits: seq<bool>, lo: nat, hi: nat, k: nat, v: bool)
    requires hi <= |bits|
    ensures FirstRun(bits, lo, hi, k, v).None?
            <==> forall i: nat :: lo <= i && i + k <= hi ==> !RunAt(bits, i, k, v)
    ensures forall i: nat :: FirstRun(bits, lo, hi, k, v) == Some(i) <==>
                               && lo <= i && i + k <= hi && RunAt(bits, i, k, v)
                               && forall h: nat :: lo <= h < i ==> !RunAt(bits, h, k, v)
    decreases hi - lo
  {
    hide RunAt;
    hide FirstRun;
    FirstRunStep(bits, lo, hi, k, v);
    if lo + k > hi || RunAt(bits, lo, k, v) || lo == hi {
    } else {
      FirstRunIsLeast(bits, lo + 1, hi, k, v);
    }
  }

  /** BitmapScanFromToAndFlip on bits: the new bits, and where the run of v's was (none: no change). */
  function ScanAndFlip(bits: seq<bool>, lo: nat, hi: nat, k: nat, v: bool): (seq<bool>, Option<nat>) {
    if k == 0 || lo > hi || hi > |bits| then (bits, None)
    else
      match FirstRun(bits, lo, hi, k, v)
      case None => (bits, None)
      case Some(i) => if i + k <= |bits| then (Fill(bits, i, k, !v), Some(i)) else (bits, None)
  }

  /** The guard of BitmapSetBitsValue; the subtraction is on DWORDs. */
  predicate GuardPasses(bitCount: nat, index: nat, count: nat) {
    index < bitCount && (bitCount - count) % DWORD_VALUES >= index
  }

  /**
   The guard keeps every bit that is then written inside the bitmap, whatever the index, exactly when
   the count is not larger than the bitmap; beyond that the subtraction wraps and index 0 gets through.
   */
  lemma GuardIsEnough(bitCount: nat, count: nat)
    requires 0 < bitCount < DWORD_VALUES && count < DWORD_VALUES
    ensures count <= bitCount
            <==> forall index: nat :: GuardPasses(bitCount, index, count) ==> index + count <= bitCount
  {
    if count > bitCount {
      assert GuardPasses(bitCount, 0, count);
    }
  }

  // ---------------------------------------------------------------------------------------------
  // Runs of allocations and matching frees
  // ---------------------------------------------------------------------------------------------

  datatype Range = Range(start: nat, length: nat) {
    predicate Holds(j: nat) {
      start <= j < start + length
    }
  }

  datatype Request = Allocate(lo: nat, hi: nat, count: nat) | Release(which: nat)

  /** `failed`: a release was refused by the ASSERTs of BitmapSetBitsValue, or wrote past the bitmap. */
  datatype History = History(bits: seq<bool>, live: seq<Range>, failed: bool)

  function After(h: History, request: Request, v: bool): History {
    match request
    case Allocate(lo, hi, count) =>
      var (bits, answer) := ScanAndFlip(h.bits, lo, hi, count, v);
      if answer.None? then h.(bits := bits)
      else History(bits, h.live + [Range(answer.value, count)], h.failed)
    case Release(which) =>
      if which >= |h.live| then h
      else
        var Range(start, length) := h.live[which];
        if GuardPasses(|h.bits|, start, length) && start + length <= |h.bits|
        then History(Fill(h.bits, start, length, v), h.live[..which] + h.live[which + 1..], h.failed)
        else h.(failed := true)
  }

  function Run(h: History, requests: seq<Request>, v: bool): History
    decreases |requests|
  {
    if requests == [] then h else Run(After(h, requests[0], v), requests[1..], v)
  }

  ghost predicate Covered(live: seq<Range>, j: nat) {
    exists w :: 0 <= w < |live| && live[w].Holds(j)
  }

  predicate Apart(a: Range, b: Range) {
    a.start + a.length <= b.start || b.start + b.length <= a.start
  }

  function Meeting(a: Range, b: Range): nat {
    if a.start < b.start then b.start else a.start
  }

  lemma MeetOrApart(a: Range, b: Range)
    requires a.length > 0 && b.length > 0
    ensures Apart(a, b) || (a.Holds(Meeting(a, b)) && b.Holds(Meeting(a, b)))
  {
  }

  /** In a sound history every matching free passes the guard and frees the range. */
  lemma ReleaseGoesThrough(h: History, which: nat, v: bool)
    requires Sound(h, v) && which < |h.live|
    ensures
      var Range(start, length) := h.live[which];
      && GuardPasses(|h.bits|, start, length) && start + length <= |h.bits|
      && After(h, Release(which), v)
         == History(Fill(h.bits, start, length, v), h.live[..which] + h.live[which + 1..], h.failed)
  {
    hide Covered;
    hide Apart;
  }

  /** The live ranges are non-empty, inside the bitmap and pairwise apart; the taken bits are theirs. */
  ghost predicate Sound(h: History, v: bool) {
    && !h.failed && |h.bits| < DWORD_VALUES
    && (forall w :: 0 <= w < |h.live| ==> 0 < h.live[w].length && h.live[w].start + h.live[w].length <= |h.bits|)
    && (forall w, x :: 0 <= w < x < |h.live| ==> Apart(h.live[w], h.live[x]))
    && (forall j: nat :: j < |h.bits| ==> (h.bits[j] == !v <==> Covered(h.live, j)))
  }

  lemma AllocateSound(h: History, lo: nat, hi: nat, count: nat, v: bool)
    requires Sound(h, v)
    ensures Sound(After(h, Allocate(lo, hi, count), v), v)
  {
    var g := After(h, Allocate(lo, hi, count), v);
    if g.live != h.live {
      FirstRunIsLeast(h.bits, lo, hi, count, v);
      var i := FirstRun(h.bits, lo, hi, count, v).value;
      assert RunAt(h.bits, i, count, v);
      var r := Range(i, count);
      forall w | 0 <= w < |h.live|
        ensures Apart(h.live[w], r)
      {
        MeetOrApart(h.live[w], r);
        var met := Covered(h.live, Meeting(h.live[w], r));
      }
      forall j: nat | j < |g.bits|
        ensures g.bits[j] == !v <==> Covered(g.live, j)
      {
        CoveredByOneMore(h.live, r, j);
      }
    }
  }

  lemma CoveredByOneMore(live: seq<Range>, r: Range, j: nat)
    ensures Covered(live + [r], j) <==> Covered(live, j) || r.Holds(j)
  {
    var more := live + [r];
    if Covered(live, j) {
      var w :| 0 <= w < |live| && live[w].Holds(j);
      assert more[w].Holds(j);
    }
    if r.Holds(j) {
      assert more[|live|].Holds(j);
    }
  }

  lemma ApartMeansNotBoth(a: Range, b: Range, j: nat)
    requires Apart(a, b) || Apart(b, a)
    ensures !(a.Holds(j) && b.Holds(j))
  {
  }

  lemma CoveredByOneLess(live: seq<Range>, which: nat, j: nat)
    requires which < |live| && forall w, x :: 0 <= w < x < |live| ==> Apart(live[w], live[x])
    ensures Covered(live[..which] + live[which + 1..], j) <==> Covered(live, j) && !live[which].Holds(j)
    ensures live[which].Holds(j) ==> Covered(live, j)
  {
    hide Apart;
    var less := live[..which] + live[which + 1..];
    if Covered(less, j) {
      var w :| 0 <= w < |less| && less[w].Holds(j);
      var other := if w < which then w else w + 1;
      assert less[w] == live[other];
      ApartMeansNotBoth(live[which], live[other], j);
    }
    if Covered(live, j) && !live[which].Holds(j) {
      var w :| 0 <= w < |live| && live[w].Holds(j);
      assert less[if w < which then w else w - 1] == live[w];
    }
  }

  lemma ReleaseSound(h: History, which: nat, v: bool)
    requires Sound(h, v)
    ensures Sound(After(h, Release(which), v), v)
  {
    if which < |h.live| {
      var g := After(h, Release(which), v);
      var r := h.live[which];
      forall j: nat | j < |g.bits|
        ensures g.bits[j] == !v <==> Covered(g.live, j)
      {
        CoveredByOneLess(h.live, which, j);
      }
    }
  }

  /** Over any run of scan-and-flip allocations and matching frees, live ranges stay apart. */
  lemma {:induction false} EveryRunIsSound(h: History, requests: seq<Request>, v: bool)
    requires Sound(h, v)
    ensures Sound(Run(h, requests, v), v)
    decreases |requests|
  {
    if requests == [] {
    } else {
      match requests[0] {
        case Allocate(lo, hi, count) => AllocateSound(h, lo, hi, count, v);
        case Release(which) => ReleaseSound(h, which, v);
      }
      EveryRunIsSound(After(h, requests[0], v), requests[1..], v);
    }
  }

  function CountOf(bits: seq<bool>, v: bool): nat {
    if bits == [] then 0 else (if bits[0] == v then 1 else 0) + CountOf(bits[1..], v)
  }

  function TotalLength(live: seq<Range>): nat {
    if live == [] then 0 else live[0].length + TotalLength(live[1..])
  }

  lemma {:induction false} CountOfParts(a: seq<bool>, b: seq<bool>, v: bool)
    ensures CountOf(a + b, v) == CountOf(a, v) + CountOf(b, v)
  {
    if a == [] {
      assert a + b == b;
    } else {
      assert (a + b)[1..] == a[1..] + b;
      CountOfParts(a[1..], b, v);
    }
  }

  lemma {:induction false} CountOfSame(bits: seq<bool>, v: bool, x: bool)
    requires forall j :: 0 <= j < |bits| ==> bits[j] == x
    ensures CountOf(bits, v) == if v == x then |bits| else 0
  {
    if bits == [] {
    } else {
      CountOfSame(bits[1..], v, x);
    }
  }

  lemma CountOfFill(bits: seq<bool>, i: nat, k: nat, x: bool, v: bool)
    requires i + k <= |bits| && RunAt(bits, i, k, !x)
    ensures v == x ==> CountOf(Fill(bits, i, k, x), v) == CountOf(bits, v) + k
    ensures v != x ==> CountOf(Fill(bits, i, k, x), v) == CountOf(bits, v) - k
  {
    var a, b, c := bits[..i], bits[i..i + k], bits[i + k..];
    var filled := seq(k, _ => x);
    assert bits == a + b + c && Fill(bits, i, k, x) == a + filled + c;
    CountOfParts(a + b, c, v);
    CountOfParts(a, b, v);
    CountOfParts(a + filled, c, v);
    CountOfParts(a, filled, v);
    CountOfSame(b, v, !x);
    CountOfSame(filled, v, x);
  }

  lemma {:induction false} TotalLengthOfParts(a: seq<Range>, b: seq<Range>)
    ensures TotalLength(a + b) == TotalLength(a) + TotalLength(b)
  {
    if a == [] {
      assert a + b == b;
    } else {
      assert (a + b)[1..] == a[1..] + b;
      TotalLengthOfParts(a[1..], b);
    }
  }

  lemma AllocateConserves(h: History, lo: nat, hi: nat, count: nat, v: bool)
    requires Sound(h, v)
    ensures
      var g := After(h, Allocate(lo, hi, count), v);
      CountOf(g.bits, !v) - TotalLength(g.live) == CountOf(h.bits, !v) - TotalLength(h.live)
  {
    hide Sound;
    hide CountOf;
    hide TotalLength;
    hide Fill;
    hide FirstRun;
    hide RunAt;
    var found := ScanAndFlip(h.bits, lo, hi, count, v).1;
    if found.Some? {
      FirstRunIsLeast(h.bits, lo, hi, count, v);
      CountOfFill(h.bits, found.value, count, !v, !v);
      TotalLengthOfParts(h.live, [Range(found.value, count)]);
      TotalLengthOfOne(Range(found.value, count));
    }
  }

  lemma TotalLengthOfOne(r: Range)
    ensures TotalLength([r]) == r.length
  {
    assert [r][1..] == [];
  }

  lemma RangeIsTaken(h: History, which: nat, v: bool)
    requires Sound(h, v) && which < |h.live|
    ensures
      var r := h.live[which];
      r.start + r.length <= |h.bits| < DWORD_VALUES && 0 < r.length && RunAt(h.bits, r.start, r.length, !v)
  {
    var r := h.live[which];
    forall j: nat | r.Holds(j)
      ensures Covered(h.live, j)
    {
    }
  }

  lemma ReleaseConserves(h: History, which: nat, v: bool)
    requires Sound(h, v)
    ensures
      var g := After(h, Release(which), v);
      CountOf(g.bits, !v) - TotalLength(g.live) == CountOf(h.bits, !v) - TotalLength(h.live)
  {
    hide Sound;
    hide CountOf;
    hide TotalLength;
    hide Fill;
    hide RunAt;
    if which < |h.live| {
      var r := h.live[which];
      RangeIsTaken(h, which, v);
      CountOfFill(h.bits, r.start, r.length, v, !v);
      assert h.live == h.live[..which] + [r] + h.live[which + 1..];
      TotalLengthOfParts(h.live[..which] + [r], h.live[which + 1..]);
      TotalLengthOfParts(h.live[..which], [r]);
      TotalLengthOfParts(h.live[..which], h.live[which + 1..]);
      TotalLengthOfOne(r);
    }
  }

  lemma OneStepConserves(h: History, request: Request, v: bool)
    requires Sound(h, v)
    ensures
      var g := After(h, request, v);
      CountOf(g.bits, !v) - TotalLength(g.live) == CountOf(h.bits, !v) - TotalLength(h.live)
  {
    hide After;
    match request
    case Allocate(lo, hi, count) => AllocateConserves(h, lo, hi, count, v);
    case Release(which) => ReleaseConserves(h, which, v);
  }

  /** Conservation: the number of taken bits is the total length of the live ranges, over every run. */
  lemma {:induction false} TakenBitsAreConserved(h: History, requests: seq<Request>, v: bool)
    requires Sound(h, v)
    ensures
      var g := Run(h, requests, v);
      CountOf(g.bits, !v) - TotalLength(g.live) == CountOf(h.bits, !v) - TotalLength(h.live)
    decreases |requests|
  {
    if requests == [] {
    } else {
      OneStepConserves(h, requests[0], v);
      EveryRunIsSound(h, [requests[0]], v);
      assert Run(h, [requests[0]], v) == After(h, requests[0], v);
      TakenBitsAreConserved(After(h, requests[0], v), requests[1..], v);
    }
  }

  /** From a bitmap that was initialised as all free, both hold with nothing to start from. */
  lemma EveryHistory(n: nat, requests: seq<Request>, v: bool)
    requires n < DWORD_VALUES
    ensures
      var h := Run(History(seq(n, _ => v), [], false), requests, v);
      Sound(h, v) && CountOf(h.bits, !v) == TotalLength(h.live)
  {
    var start := History(seq(n, _ => v), [], false);
    EveryRunIsSound(start, requests, v);
    TakenBitsAreConserved(start, requests, v);
    CountOfSame(start.bits, !v, v);
  }

  /** First fit against the live ranges: the answer is the least place in the window that is apart from all. */
  lemma AllocatesTheLowestFreePlace(h: History, lo: nat, hi: nat, count: nat, v: bool, i: nat)
    requires Sound(h, v) && 0 < count && lo <= hi <= |h.bits| && lo <= i && i + count <= hi
    ensures
      var answer := ScanAndFlip(h.bits, lo, hi, count, v).1;
      var free := forall w :: 0 <= w < |h.live| ==> Apart(h.live[w], Range(i, count));
      (free ==> answer.Some? && answer.value <= i) && (answer == Some(i) ==> free)
  {
    FirstRunIsLeast(h.bits, lo, hi, count, v);
    var r := Range(i, count);
    if forall w :: 0 <= w < |h.live| ==> Apart(h.live[w], r) {
      forall j: nat | r.Holds(j)
        ensures !Covered(h.live, j)
      {
      }
      assert RunAt(h.bits, i, count, v);
    }
    if RunAt(h.bits, i, count, v) {
      forall w | 0 <= w < |h.live|
        ensures Apart(h.live[w], r)
      {
        MeetOrApart(h.live[w], r);
        var met := Covered(h.live, Meeting(h.live[w], r));
      }
    }
  }

  /** No live range meets the place. */
  ghost predicate IsFree(live: seq<Range>, start: nat, count: nat) {
    forall w :: 0 <= w < |live| ==> Apart(live[w], Range(start, count))
  }

  ghost predicate IsLowestFree(live: seq<Range>, lo: nat, hi: nat, count: nat, i: nat) {
    lo <= i && i + count <= hi && IsFree(live, i, count) && forall j: nat :: lo <= j < i ==> !IsFree(live, j, count)
  }

  /** All that a well-formed allocation does: it takes the lowest free place of the window and records it, or,
      when no place is free, nothing. */
  lemma AllocateExactly(h: History, lo: nat, hi: nat, count: nat, v: bool)
    requires Sound(h, v) && 0 < count && lo <= hi <= |h.bits|
    ensures
      var g := After(h, Allocate(lo, hi, count), v);
      || (g == h && forall i: nat :: lo <= i && i + count <= hi ==> !IsFree(h.live, i, count))
      || exists i: nat :: IsLowestFree(h.live, lo, hi, count, i) && i + count <= |h.bits|
                       && g == History(Fill(h.bits, i, count, !v), h.live + [Range(i, count)], h.failed)
  {
    hide Sound, Fill, RunAt, FirstRun, Apart;
    FirstRunIsLeast(h.bits, lo, hi, count, v);
    forall i: nat | lo <= i && i + count <= hi
      ensures IsFree(h.live, i, count) ==> ScanAndFlip(h.bits, lo, hi, count, v).1.Some?
      ensures IsFree(h.live, i, count) ==> ScanAndFlip(h.bits, lo, hi, count, v).1.value <= i
      ensures ScanAndFlip(h.bits, lo, hi, count, v).1 == Some(i) ==> IsFree(h.live, i, count)
    {
      AllocatesTheLowestFreePlace(h, lo, hi, count, v, i);
    }
    if ScanAndFlip(h.bits, lo, hi, count, v).1.Some? {
      var i := ScanAndFlip(h.bits, lo, hi, count, v).1.value;
      assert IsLowestFree(h.live, lo, hi, count, i);
    }
  }

  /** A malformed one does nothing at all. */
  lemma MalformedAllocation(h: History, lo: nat, hi: nat, count: nat, v: bool)
    requires count == 0 || lo > hi || hi > |h.bits|
    ensures After(h, Allocate(lo, hi, count), v) == h
  {
  }

  // ---------------------------------------------------------------------------------------------
  // The bitmap itself
  // ---------------------------------------------------------------------------------------------

  /** How an answer is returned in a DWORD. */
  function Answer(found: Option<nat>): nat {
    match found
    case None => MAX_DWORD
    case Some(i) => i
  }

  datatype SetOutcome = Stopped | Overrun | Written

  class Bitmap {
    var BitmapBuffer: array<bv8>
    var BufferSize: nat
    var BitCount: nat

    ghost predicate Valid()
      reads this
    {
      && 0 < BitCount < DWORD_VALUES
      && BufferSize == (BitCount + BITMAP_ENTRY_BITS - 1) / BITMAP_ENTRY_BITS
      && BitmapBuffer.Length == BufferSize
    }

    ghost function Bits(): (bits: seq<bool>)
      requires Valid()
      reads this, BitmapBuffer
      ensures |bits| == BitCount
    {
      Unpack(BitmapBuffer[..], BitCount)
    }

    /** BitmapPreinit and BitmapInitEx. */
    constructor (numberOfElements: nat, value: bool)
      requires 0 < numberOfElements < DWORD_VALUES
      ensures Valid() && fresh(BitmapBuffer)
      ensures Bits() == seq(numberOfElements, _ => value)
    {
      BitCount := numberOfElements;
      var size := (numberOfElements + BITMAP_ENTRY_BITS - 1) / BITMAP_ENTRY_BITS;
      BufferSize := size;
      var filler: bv8 := if value then 0xFF else 0;
      BitmapBuffer := new bv8[size](_ => filler);
      new;
    }

    /** |= with a mask, or &= with its complement. */
    static method Changed(entry: bv8, mask: bv8, value: bool) returns (changed: bv8)
      ensures changed == With(entry, mask, value)
    {
      if value {
        changed := entry | mask;
      } else {
        changed := entry & !mask;
      }
    }

    /** _BitmapChangeBit. */
    method ChangeBit(index: nat, value: bool)
      requires Valid() && index < BitCount
      modifies BitmapBuffer
      ensures Bits() == old(Bits())[index := value]
    {
      hide Mask;
      hide Unpack;
      hide BitOf;
      var byteIndex := index / BITMAP_ENTRY_BITS;
      var bitIndex := index % BITMAP_ENTRY_BITS;
      ChangedByte(BitmapBuffer[..], BitCount, index, value);
      var changed := Changed(BitmapBuffer[byteIndex], Mask(bitIndex), value);
      ghost var was := BitmapBuffer[..];
      hide With;
      BitmapBuffer[byteIndex] := changed;
      assert BitmapBuffer[..] == was[byteIndex := changed];
    }

    /** _BitmapChangeBits. */
    method ChangeBits(index: nat, value: bool, count: nat)
      requires Valid() && index + count <= BitCount
      modifies BitmapBuffer
      ensures Bits() == Fill(old(Bits()), index, count, value)
    {
      hide Unpack;
      hide Fill;
      ghost var was := Bits();
      assert Fill(was, index, 0, value) == was by { FillNone(was, index, value); }
      for i := 0 to count
        invariant Bits() == Fill(was, index, i, value)
      {
        FillOneMore(was, index, i, value);
        ChangeBit(index + i, value);
      }
    }

    /** BitmapGetBitValue. */
    method GetBit(index: nat) returns (value: bool)
      requires Valid() && index < BitCount
      ensures value == Bits()[index]
    {
      value := BitOf(BitmapBuffer[index / BITMAP_ENTRY_BITS], index % BITMAP_ENTRY_BITS);
    }

    /** _BitmapScanInternal: no bit is read outside the window. */
    method ScanInternal(startIndex: nat, firstInvalidBitIndex: nat, consecutiveBits: nat, value: bool)
      returns (index: nat)
      requires Valid() && 0 < consecutiveBits && startIndex <= firstInvalidBitIndex <= BitCount
      ensures index == Answer(FirstRun(Bits(), startIndex, firstInvalidBitIndex, consecutiveBits, value))
      ensures index != MAX_DWORD ==> index + consecutiveBits <= firstInvalidBitIndex
    {
      hide FirstRun;
      hide Unpack;
      hide RunAt;
      FirstRunStep(Bits(), startIndex, firstInvalidBitIndex, consecutiveBits, value);
      if firstInvalidBitIndex - startIndex < consecutiveBits {
        return MAX_DWORD;
      }
      var lastIndex := firstInvalidBitIndex - consecutiveBits;
      var i := startIndex;
      while i <= lastIndex
        invariant startIndex <= i <= lastIndex + 1
        invariant FirstRun(Bits(), startIndex, firstInvalidBitIndex, consecutiveBits, value)
               == FirstRun(Bits(), i, firstInvalidBitIndex, consecutiveBits, value)
        decreases lastIndex + 1 - i
      {
        FirstRunStep(Bits(), i, firstInvalidBitIndex, consecutiveBits, value);
        var found := true;
        var j := 0;
        EmptyRun(Bits(), i, value);
        while j < consecutiveBits
          invariant 0 <= j <= consecutiveBits && found
          invariant RunAt(Bits(), i, j, value)
          decreases consecutiveBits - j
        {
          var bit := GetBit(i + j);
          LongerRun(Bits(), i, j, consecutiveBits, value);
          if value != bit {
            found := false;
            break;
          }
          j := j + 1;
        }
        if found {
          return i;
        }
        i := i + 1;
      }
      FirstRunStep(Bits(), i, firstInvalidBitIndex, consecutiveBits, value);
      return MAX_DWORD;
    }

    /** BitmapScanFromTo; MAX_DWORD means that there is no such run, or that the window is malformed. */
    method ScanFromTo(lo: nat, hi: nat, consecutiveBits: nat, value: bool) returns (index: nat)
      requires Valid()
      ensures index == Answer(ScanAndFlip(Bits(), lo, hi, consecutiveBits, value).1)
      ensures index == MAX_DWORD
              <==> || consecutiveBits == 0 || lo > hi || hi > BitCount
                   || forall i: nat :: lo <= i && i + consecutiveBits <= hi
                                       ==> !RunAt(Bits(), i, consecutiveBits, value)
      ensures index != MAX_DWORD
              ==> && lo <= index && index + consecutiveBits <= hi && RunAt(Bits(), index, consecutiveBits, value)
                  && forall i: nat :: lo <= i < index ==> !RunAt(Bits(), i, consecutiveBits, value)
    {
      hide RunAt;
      hide FirstRun;
      if consecutiveBits == 0 || lo > hi || hi > BitCount {
        return MAX_DWORD;
      }
      index := ScanInternal(lo, hi, consecutiveBits, value);
      FirstRunIsLeast(Bits(), lo, hi, consecutiveBits, value);
    }

    /** BitmapScanFromToAndFlip. */
    method ScanFromToAndFlip(lo: nat, hi: nat, consecutiveBits: nat, value: bool) returns (index: nat)
      requires Valid()
      modifies BitmapBuffer
      ensures Bits() == ScanAndFlip(old(Bits()), lo, hi, consecutiveBits, value).0
      ensures index == Answer(ScanAndFlip(old(Bits()), lo, hi, consecutiveBits, value).1)
    {
      if consecutiveBits == 0 || lo > hi || hi > BitCount {
        return MAX_DWORD;
      }
      FirstRunIsLeast(Bits(), lo, hi, consecutiveBits, value);
      index := ScanInternal(lo, hi, consecutiveBits, value);
      if index == MAX_DWORD {
        return MAX_DWORD;
      }
      ChangeBits(index, !value, consecutiveBits);
    }

    /**
     BitmapSetBitsValue. An ASSERT stops it exactly when the guard fails. When the guard has wrapped, the
     loop goes on to write outside the bitmap; that outcome is told before anything is written.
     */
    method SetBitsValue(index: nat, count: nat, value: bool) returns (outcome: SetOutcome)
      requires Valid() && count < DWORD_VALUES
      modifies BitmapBuffer
      ensures outcome.Stopped? <==> !GuardPasses(BitCount, index, count)
      ensures outcome.Written? <==> index < BitCount && index + count <= BitCount
      ensures outcome.Overrun? ==> count > BitCount
      ensures Bits() == if outcome.Written? then Fill(old(Bits()), index, count, value) else old(Bits())
    {
      hide Unpack;
      hide Fill;
      if index >= BitCount || (BitCount - count) % DWORD_VALUES < index {
        return Stopped;
      }
      if index + count > BitCount {
        return Overrun;
      }
      ChangeBits(index, value, count);
      outcome := Written;
    }
  }
}
