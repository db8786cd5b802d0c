/**
 The reader/writer spinlock of CommonLib/src/rw_spinlock.c, as an interleaved step
 machine: N CPUs, one program counter each, and three adjacent 16-bit words that the
 CPUs update with 16-bit increments and with two overlapping 32-bit compare-exchanges.

 A schedule says, move by move, which CPU executes its next atomic step; every theorem
 is about every schedule. An ASSERT that fails parks its CPU in `Stopped`.
 */
module RwSpinlock {
  import opened MachineWords

  /** The lock's memory, in address order (rw_spinlock.h). */
  datatype Words = Words(waitingWriters: Word, activeWriter: Word, activeReaders: Word)

  function Increment16(w: Word): Word {
    (w + 1) % WORD_VALUES
  }

  function Decrement16(w: Word): Word {
    (w + WORD_VALUES - 1) % WORD_VALUES
  }

  /** A 32-bit compare-exchange on two adjacent words, seen as one little-endian DWORD.
      Returns the value found and the two words afterwards. */
  function CompareExchange32(low: Word, high: Word, exchange: int, comparand: int): (int, Word, Word)
    requires 0 <= exchange < WORD_VALUES * WORD_VALUES
  {
    var found := low + WORD_VALUES * high;
    if found == comparand
    then (found, exchange % WORD_VALUES, exchange / WORD_VALUES)
    else (found, low, high)
  }

  /** Where a CPU stands; the names say which atomic step it has taken last. */
  datatype Pc =
    | Idle
    | WriterCalled      // next: announce itself in WaitingWriters (line 33)
    | WriterWaiting     // next: the compare-exchange of line 36
    | WriterAdmitted    // next: leave WaitingWriters (line 43)
    | WriterInside      // holds the lock; next: the ASSERT of line 85
    | WriterLeaving     // next: release ActiveWriter (line 87)
    | ReaderWaiting     // next: the compare-exchange of line 55
    | ReaderAdmitted    // pretends to be a writer; next: join ActiveReaders (line 61)
    | ReaderCounted     // next: the ASSERT of line 63
    | ReaderConfessing  // next: stop pretending (line 67)
    | ReaderInside      // holds the lock; next: leave ActiveReaders (line 96)
    | Stopped

  datatype State = State(words: Words, pcs: seq<Pc>)

  /** One atomic step of one CPU; `exclusive` is read only when the CPU is idle. */
  datatype Move = Move(cpu: nat, exclusive: bool)

  function Step(words: Words, pc: Pc, exclusive: bool): (Words, Pc) {
    match pc
    case Idle =>
      (words, if exclusive then WriterCalled else ReaderWaiting)
    case WriterCalled =>
      (words.(waitingWriters := Increment16(words.waitingWriters)), WriterWaiting)
    case WriterWaiting =>
      var (found, aw, ar) := CompareExchange32(words.activeWriter, words.activeReaders, 1, 0);
      (words.(activeWriter := aw, activeReaders := ar), if found == 0 then WriterAdmitted else WriterWaiting)
    case WriterAdmitted =>
      (words.(waitingWriters := Decrement16(words.waitingWriters)), WriterInside)
    case WriterInside =>
      (words, if words.activeWriter == 1 then WriterLeaving else Stopped)
    case WriterLeaving =>
      (words.(activeWriter := Decrement16(words.activeWriter)), Idle)
    case ReaderWaiting =>
      var (found, ww, aw) := CompareExchange32(words.waitingWriters, words.activeWriter, WORD_VALUES, 0);
      (words.(waitingWriters := ww, activeWriter := aw), if found == 0 then ReaderAdmitted else ReaderWaiting)
    case ReaderAdmitted =>
      (words.(activeReaders := Increment16(words.activeReaders)), ReaderCounted)
    case ReaderCounted =>
      (words, if words.activeWriter == 1 then ReaderConfessing else Stopped)
    case ReaderConfessing =>
      (words.(activeWriter := Decrement16(words.activeWriter)), ReaderInside)
    case ReaderInside =>
      (words.(activeReaders := Decrement16(words.activeReaders)), Idle)
    case Stopped =>
      (words, Stopped)
  }

  /** A move of a CPU that does not exist changes nothing. */
  function StepCpu(s: State, m: Move): (r: State)
    ensures |r.pcs| == |s.pcs|
  {
    if m.cpu < |s.pcs| then
      var (words, pc) := Step(s.words, s.pcs[m.cpu], m.exclusive);
      State(words, s.pcs[m.cpu := pc])
    else
      s
  }

  function Init(n: nat): State {
    State(Words(0, 0, 0), seq(n, _ => Idle))
  }

  /** The state after all moves of a schedule. */
  function Exec(s: State, schedule: seq<Move>): (r: State)
    ensures |r.pcs| == |s.pcs|
  {
    if schedule == [] then s
    else StepCpu(Exec(s, schedule[..|schedule| - 1]), schedule[|schedule| - 1])
  }

  // ----- counting program counters

  function Count(pcs: seq<Pc>, c: set<Pc>): (n: nat)
    ensures n <= |pcs|
  {
    if pcs == [] then 0
    else (if pcs[|pcs| - 1] in c then 1 else 0) + Count(pcs[..|pcs| - 1], c)
  }

  /** Writers that announced themselves and have not left WaitingWriters. */
  const ANNOUNCED: set<Pc> := {WriterWaiting, WriterAdmitted}
  /** Writers past their compare-exchange and before their release. */
  const WRITING: set<Pc> := {WriterAdmitted, WriterInside, WriterLeaving}
  /** Readers that still pretend to be a writer. */
  const PRETENDING: set<Pc> := {ReaderAdmitted, ReaderCounted, ReaderConfessing}
  /** Readers counted in ActiveReaders. */
  const READING: set<Pc> := {ReaderCounted, ReaderConfessing, ReaderInside}
  /** Readers past their compare-exchange and before their release. */
  const ADMITTED: set<Pc> := {ReaderAdmitted, ReaderCounted, ReaderConfessing, ReaderInside}

  lemma {:induction false} CountUpdate(pcs: seq<Pc>, i: nat, pc: Pc, c: set<Pc>)
    requires i < |pcs|
    ensures Count(pcs[i := pc], c)
         == Count(pcs, c) - (if pcs[i] in c then 1 else 0) + (if pc in c then 1 else 0)
  {
    var last := |pcs| - 1;
    if i < last {
      assert pcs[i := pc][..last] == pcs[..last][i := pc];
      CountUpdate(pcs[..last], i, pc, c);
    } else {
      assert pcs[i := pc][..last] == pcs[..last];
    }
  }

  lemma {:induction false} CountUnion(pcs: seq<Pc>, c: set<Pc>, d: set<Pc>)
    requires c !! d
    ensures Count(pcs, c + d) == Count(pcs, c) + Count(pcs, d)
  {
    if pcs == [] {
    } else {
      CountUnion(pcs[..|pcs| - 1], c, d);
    }
  }

  lemma {:induction false} CountOccurs(pcs: seq<Pc>, i: nat, c: set<Pc>)
    requires i < |pcs| && pcs[i] in c
    ensures Count(pcs, c) >= 1
  {
    if i >= |pcs| - 1 {
    } else {
      CountOccurs(pcs[..|pcs| - 1], i, c);
    }
  }

  lemma {:induction false} CountZero(pcs: seq<Pc>, c: set<Pc>)
    requires forall i :: 0 <= i < |pcs| ==> pcs[i] !in c
    ensures Count(pcs, c) == 0
  {
    if pcs == [] {
    } else {
      CountZero(pcs[..|pcs| - 1], c);
    }
  }

  lemma {:induction false} CountFind(pcs: seq<Pc>, c: set<Pc>) returns (i: nat)
    requires Count(pcs, c) >= 1
    ensures i < |pcs| && pcs[i] in c
  {
    i := |pcs| - 1;
    if pcs[i] in c {
    } else {
      i := CountFind(pcs[..i], c);
    }
  }

  /** Two CPUs in one class count twice; a CPU in a class whose count is 1 is alone there. */
  lemma CountPair(pcs: seq<Pc>, i: nat, j: nat, c: set<Pc>)
    requires i < |pcs| && j < |pcs| && i != j && pcs[i] in c && pcs[j] in c && Stopped !in c
    ensures Count(pcs, c) >= 2
  {
    CountUpdate(pcs, i, Stopped, c);
    CountOccurs(pcs[i := Stopped], j, c);
  }

  // ----- the inductive invariant

  /** How many CPUs are in each class. */
  datatype Tally = Tally(announced: nat, writing: nat, pretending: nat, reading: nat, stopped: nat)

  function TallyOf(pcs: seq<Pc>): Tally {
    Tally(Count(pcs, ANNOUNCED), Count(pcs, WRITING), Count(pcs, PRETENDING), Count(pcs, READING),
          Count(pcs, {Stopped}))
  }

  /** Each word is the number of CPUs in one class, modulo 2^16; ActiveWriter never exceeds 1;
      and while a writer is past its compare-exchange no reader is counted. */
  ghost predicate Agrees(words: Words, t: Tally) {
    && words.waitingWriters == t.announced % WORD_VALUES
    && words.activeReaders == t.reading % WORD_VALUES
    && words.activeWriter == t.writing + t.pretending <= 1
    && (t.writing >= 1 ==> t.reading == 0)
    && t.stopped == 0
  }

  ghost predicate Inv(s: State) {
    Agrees(s.words, TallyOf(s.pcs))
  }

  lemma InitInv(n: nat)
    ensures Inv(Init(n))
  {
    var pcs := Init(n).pcs;
    CountZero(pcs, ANNOUNCED);
    CountZero(pcs, WRITING);
    CountZero(pcs, PRETENDING);
    CountZero(pcs, READING);
    CountZero(pcs, {Stopped});
  }

  function One(pc: Pc, c: set<Pc>): nat {
    if pc in c then 1 else 0
  }

  function TallyOne(pc: Pc): Tally {
    Tally(One(pc, ANNOUNCED), One(pc, WRITING), One(pc, PRETENDING), One(pc, READING), One(pc, {Stopped}))
  }

  /** `t` with one CPU of tally `a` replaced by one of tally `b`. */
  ghost predicate Moved(t: Tally, a: Tally, b: Tally, r: Tally) {
    && r.announced == t.announced - a.announced + b.announced && a.announced <= t.announced
    && r.writing == t.writing - a.writing + b.writing && a.writing <= t.writing
    && r.pretending == t.pretending - a.pretending + b.pretending && a.pretending <= t.pretending
    && r.reading == t.reading - a.reading + b.reading && a.reading <= t.reading
    && r.stopped == t.stopped - a.stopped + b.stopped && a.stopped <= t.stopped
  }

  lemma TallyUpdate(pcs: seq<Pc>, i: nat, pc: Pc)
    requires i < |pcs|
    ensures Moved(TallyOf(pcs), TallyOne(pcs[i]), TallyOne(pc), TallyOf(pcs[i := pc]))
  {
    forall c: set<Pc>
      ensures Count(pcs[i := pc], c) == Count(pcs, c) - One(pcs[i], c) + One(pc, c) && One(pcs[i], c) <= Count(pcs, c)
    {
      CountUpdate(pcs, i, pc, c);
      if pcs[i] in c {
        CountOccurs(pcs, i, c);
      }
    }
  }

  /** A class that one CPU is outside of cannot hold all CPUs. */
  lemma NotEveryone(pcs: seq<Pc>, i: nat, c: set<Pc>)
    requires i < |pcs| && pcs[i] !in c
    ensures Count(pcs, c) < |pcs|
  {
    CountUnion(pcs, c, {pcs[i]});
    CountOccurs(pcs, i, {pcs[i]});
  }

  /** Why the step is safe, as arithmetic on the tallies. */
  lemma StepAgrees(words: Words, pc: Pc, exclusive: bool, t: Tally, r: Tally)
    requires Agrees(words, t) && pc != Stopped
    requires pc == WriterWaiting ==> t.reading < WORD_VALUES
    requires Moved(t, TallyOne(pc), TallyOne(Step(words, pc, exclusive).1), r)
    ensures Agrees(Step(words, pc, exclusive).0, r)
  {
    hide TallyOne;
    TallyOneIs(pc);
    TallyOneIs(Step(words, pc, exclusive).1);
    match pc
    case WriterWaiting =>
    case ReaderWaiting =>
    case _ =>
  }

  lemma TallyOneIs(pc: Pc)
    ensures
      TallyOne(pc)
      == match pc
         case WriterWaiting => Tally(1, 0, 0, 0, 0)
         case WriterAdmitted => Tally(1, 1, 0, 0, 0)
         case WriterInside => Tally(0, 1, 0, 0, 0)
         case WriterLeaving => Tally(0, 1, 0, 0, 0)
         case ReaderAdmitted => Tally(0, 0, 1, 0, 0)
         case ReaderCounted => Tally(0, 0, 1, 1, 0)
         case ReaderConfessing => Tally(0, 0, 1, 1, 0)
         case ReaderInside => Tally(0, 0, 0, 1, 0)
         case Stopped => Tally(0, 0, 0, 0, 1)
         case _ => Tally(0, 0, 0, 0, 0)
  {
  }

  lemma StepInv(s: State, m: Move)
    requires |s.pcs| <= WORD_VALUES && Inv(s)
    ensures Inv(StepCpu(s, m))
  {
    if m.cpu >= |s.pcs| {
      return;
    }
    var pc := s.pcs[m.cpu];
    TallyUpdate(s.pcs, m.cpu, Step(s.words, pc, m.exclusive).1);
    if pc == WriterWaiting {
      NotEveryone(s.pcs, m.cpu, READING);
    }
    StepAgrees(s.words, pc, m.exclusive, TallyOf(s.pcs), TallyOf(StepCpu(s, m).pcs));
  }

  lemma {:induction false} ExecInv(s: State, schedule: seq<Move>)
    requires |s.pcs| <= WORD_VALUES && Inv(s)
    ensures Inv(Exec(s, schedule))
  {
    if schedule == [] {
    } else {
      var before := schedule[..|schedule| - 1];
      ExecInv(s, before);
      var r := Exec(s, before);
      StepInv(r, schedule[|schedule| - 1]);
    }
  }

  lemma ReachableInv(n: nat, schedule: seq<Move>)
    requires n <= WORD_VALUES
    ensures Inv(Exec(Init(n), schedule))
  {
    InitInv(n);
    ExecInv(Init(n), schedule);
  }

  // ----- mutual exclusion, with the exact bound on the number of CPUs

  /** A writer in the lock is alone in it. */
  ghost predicate Exclusive(s: State) {
    forall i, j :: 0 <= i < |s.pcs| && 0 <= j < |s.pcs| && i != j && s.pcs[i] in WRITING ==>
      s.pcs[j] !in WRITING && s.pcs[j] !in ADMITTED
  }

  lemma InvExclusive(s: State)
    requires Inv(s)
    ensures Exclusive(s)
  {
    forall i, j | 0 <= i < |s.pcs| && 0 <= j < |s.pcs| && i != j && s.pcs[i] in WRITING
      ensures s.pcs[j] !in WRITING && s.pcs[j] !in ADMITTED
    {
      CountOccurs(s.pcs, i, WRITING);
      if s.pcs[j] in WRITING {
        CountPair(s.pcs, i, j, WRITING);
      } else if s.pcs[j] in PRETENDING {
        CountOccurs(s.pcs, j, PRETENDING);
      } else if s.pcs[j] in READING {
        CountOccurs(s.pcs, j, READING);
      }
    }
  }

  /** The moves with which one CPU takes the lock as a reader. */
  function ReaderEnters(cpu: nat): seq<Move> {
    var m := Move(cpu, false);
    [m, m, m, m, m]
  }

  function ReadersEnter(k: nat): seq<Move> {
    if k == 0 then [] else ReadersEnter(k - 1) + ReaderEnters(k - 1)
  }

  lemma {:induction false} ExecAppend(s: State, a: seq<Move>, b: seq<Move>)
    ensures Exec(s, a + b) == Exec(Exec(s, a), b)
  {
    if b == [] {
      assert a + b == a;
    } else {
      var last := |b| - 1;
      assert (a + b)[..|a + b| - 1] == a + b[..last];
      ExecAppend(s, a, b[..last]);
    }
  }

  lemma ExecOne(s: State, m: Move)
    ensures Exec(s, [m]) == StepCpu(s, m)
  {
    assert [m][..0] == [];
  }

  /** Five moves of an idle CPU as a reader, when no writer is about. */
  lemma ReaderGetsIn(s: State, cpu: nat)
    requires cpu < |s.pcs| && s.pcs[cpu] == Idle
    requires s.words.waitingWriters == s.words.activeWriter == 0
    ensures Exec(s, ReaderEnters(cpu))
         == State(Words(0, 0, Increment16(s.words.activeReaders)), s.pcs[cpu := ReaderInside])
  {
    hide Exec;
    var m := Move(cpu, false);
    var s1 := StepCpu(s, m);
    assert s1 == State(s.words, s.pcs[cpu := ReaderWaiting]);
    var s2 := StepCpu(s1, m);
    assert s2 == State(Words(0, 1, s.words.activeReaders), s.pcs[cpu := ReaderAdmitted]);
    var s3 := StepCpu(s2, m);
    assert s3 == State(Words(0, 1, Increment16(s.words.activeReaders)), s.pcs[cpu := ReaderCounted]);
    var s4 := StepCpu(s3, m);
    assert s4.pcs == s.pcs[cpu := ReaderConfessing];
    ExecFour(s, m, s1, s2, s3);
    ExecSnoc(s, [m, m, m, m], m, s4);
    assert [m, m, m, m] + [m] == ReaderEnters(cpu);
  }

  /** Four moves of an idle CPU as a writer, when the lock looks free. */
  lemma WriterGetsIn(s: State, cpu: nat)
    requires cpu < |s.pcs| && s.pcs[cpu] == Idle && s.words == Words(0, 0, 0)
    ensures var m := Move(cpu, true);
            Exec(s, [m, m, m, m]) == State(Words(0, 1, 0), s.pcs[cpu := WriterInside])
  {
    var m := Move(cpu, true);
    var s1 := StepCpu(s, m);
    var s2 := StepCpu(s1, m);
    assert s2.words == Words(1, 0, 0);
    var s3 := StepCpu(s2, m);
    assert s3.pcs == s.pcs[cpu := WriterAdmitted];
    ExecFour(s, m, s1, s2, s3);
  }

  lemma ExecSnoc(s: State, a: seq<Move>, m: Move, r: State)
    requires Exec(s, a) == r
    ensures Exec(s, a + [m]) == StepCpu(r, m)
  {
    var b := a + [m];
    assert b[..|b| - 1] == a && b[|b| - 1] == m;
  }

  lemma ExecFour(s: State, m: Move, s1: State, s2: State, s3: State)
    requires s1 == StepCpu(s, m) && s2 == StepCpu(s1, m) && s3 == StepCpu(s2, m)
    ensures Exec(s, [m, m, m, m]) == StepCpu(s3, m)
  {
    ExecSnoc(s, [], m, s);
    assert [] + [m] == [m];
    ExecSnoc(s, [m], m, s1);
    assert [m] + [m] == [m, m];
    ExecSnoc(s, [m, m], m, s2);
    assert [m, m] + [m] == [m, m, m];
    ExecSnoc(s, [m, m, m], m, s3);
    assert [m, m, m] + [m] == [m, m, m, m];
  }

  function ReadersIn(n: nat, k: nat): State {
    State(Words(0, 0, k % WORD_VALUES), seq(n, i => if i < k then ReaderInside else Idle))
  }

  lemma OneMoreReader(n: nat, k: nat)
    requires 0 < k <= n
    ensures ReadersIn(n, k - 1).pcs[k - 1] == Idle
    ensures ReadersIn(n, k)
         == State(Words(0, 0, Increment16(ReadersIn(n, k - 1).words.activeReaders)),
                  ReadersIn(n, k - 1).pcs[k - 1 := ReaderInside])
  {
    assert ReadersIn(n, k - 1).pcs[k - 1 := ReaderInside] == ReadersIn(n, k).pcs;
  }

  /** With no writer about, readers enter one after the other and ActiveReaders counts modulo 2^16. */
  lemma {:induction false} ReadersEnterTogether(n: nat, k: nat)
    requires k <= n
    ensures Exec(Init(n), ReadersEnter(k)) == ReadersIn(n, k)
  {
    hide StepCpu;
    hide ReaderEnters;
    if k == 0 {
      assert Init(n).pcs == ReadersIn(n, 0).pcs;
    } else {
      ReadersEnterTogether(n, k - 1);
      ExecAppend(Init(n), ReadersEnter(k - 1), ReaderEnters(k - 1));
      ReaderGetsIn(ReadersIn(n, k - 1), k - 1);
      OneMoreReader(n, k);
    }
  }

  /** 65536 readers inside look like none, so a further CPU gets in as a writer. */
  lemma TooManyReaders(n: nat)
    requires n > WORD_VALUES
    ensures exists schedule :: !Exclusive(Exec(Init(n), schedule))
  {
    hide Exec;
    hide StepCpu;
    hide ReadersEnter;
    var m := Move(WORD_VALUES, true);
    ReadersEnterTogether(n, WORD_VALUES);
    var readers, s := ReadersEnter(WORD_VALUES), ReadersIn(n, WORD_VALUES);
    ExecAppend(Init(n), readers, [m, m, m, m]);
    WriterGetsIn(s, WORD_VALUES);
    var broken := Exec(Init(n), readers + [m, m, m, m]);
    assert broken.pcs[WORD_VALUES] == WriterInside && broken.pcs[0] == ReaderInside;
    assert !Exclusive(broken);
  }

  /** Mutual exclusion holds in every run exactly when there are at most 65536 CPUs. */
  lemma MutualExclusion(n: nat)
    ensures (forall schedule :: Exclusive(Exec(Init(n), schedule)))
       <==> n <= WORD_VALUES
  {
    if n <= WORD_VALUES {
      forall schedule ensures Exclusive(Exec(Init(n), schedule)) {
        ReachableInv(n, schedule);
        InvExclusive(Exec(Init(n), schedule));
      }
    } else {
      TooManyReaders(n);
    }
  }

  // ----- the words are exact counts

  ghost predicate ExactCounts(s: State) {
    && s.words.waitingWriters == Count(s.pcs, ANNOUNCED)
    && s.words.activeWriter == Count(s.pcs, WRITING) + Count(s.pcs, PRETENDING)
    && s.words.activeReaders == Count(s.pcs, READING)
  }

  /** With at most 65535 CPUs no word ever wraps; with more, ActiveReaders can. */
  lemma CountsAreExact(n: nat)
    ensures (forall schedule :: ExactCounts(Exec(Init(n), schedule)))
       <==> n < WORD_VALUES
  {
    if n < WORD_VALUES {
      forall schedule ensures ExactCounts(Exec(Init(n), schedule)) {
        ReachableInv(n, schedule);
      }
    } else {
      ReadersEnterTogether(n, WORD_VALUES);
      CountOccurs(ReadersIn(n, WORD_VALUES).pcs, 0, READING);
      assert !ExactCounts(Exec(Init(n), ReadersEnter(WORD_VALUES)));
    }
  }

  /** The asserts of lines 63 and 85 never fire. */
  lemma AssertsHold(n: nat, schedule: seq<Move>, i: nat)
    requires n <= WORD_VALUES && i < n
    ensures Exec(Init(n), schedule).pcs[i] != Stopped
  {
    ReachableInv(n, schedule);
    var s := Exec(Init(n), schedule);
    if s.pcs[i] == Stopped {
      CountOccurs(s.pcs, i, {Stopped});
    }
  }

  // ----- writer priority

  /** From a writer's announcement to its release. */
  const WRITER_WINDOW: set<Pc> := {WriterWaiting, WriterAdmitted, WriterInside, WriterLeaving}

  ghost predicate WindowOpen(s: State, w: nat, schedule: seq<Move>)
    requires w < |s.pcs|
  {
    forall k :: 0 <= k <= |schedule| ==> Exec(s, schedule[..k]).pcs[w] in WRITER_WINDOW
  }

  predicate ReleasesAsReader(s: State, m: Move) {
    m.cpu < |s.pcs| && s.pcs[m.cpu] == ReaderInside
  }

  /** How many moves of the schedule are a reader's release (line 96). */
  function ReaderReleases(s: State, schedule: seq<Move>): nat
  {
    if schedule == [] then 0
    else
      var before, m := schedule[..|schedule| - 1], schedule[|schedule| - 1];
      ReaderReleases(s, before) + (if ReleasesAsReader(Exec(s, before), m) then 1 else 0)
  }

  /** In a writer's window the readers' compare-exchange fails. */
  lemma ReaderRefused(s: State, w: nat, m: Move)
    requires Inv(s) && w < |s.pcs| <= WORD_VALUES && m.cpu < |s.pcs|
    requires s.pcs[w] in WRITER_WINDOW && s.pcs[m.cpu] == ReaderWaiting
    ensures StepCpu(s, m) == s
  {
    if s.pcs[w] in ANNOUNCED {
      CountOccurs(s.pcs, w, ANNOUNCED);
      NotEveryone(s.pcs, m.cpu, ANNOUNCED);
    } else {
      CountOccurs(s.pcs, w, WRITING);
    }
  }

  lemma PriorityStep(s: State, w: nat, m: Move)
    requires Inv(s) && w < |s.pcs| <= WORD_VALUES && s.pcs[w] in WRITER_WINDOW
    ensures Count(StepCpu(s, m).pcs, ADMITTED) + (if ReleasesAsReader(s, m) then 1 else 0)
         == Count(s.pcs, ADMITTED)
  {
    if m.cpu >= |s.pcs| {
      return;
    }
    CountUpdate(s.pcs, m.cpu, StepCpu(s, m).pcs[m.cpu], ADMITTED);
    if s.pcs[m.cpu] == ReaderWaiting {
      ReaderRefused(s, w, m);
    } else if s.pcs[m.cpu] == ReaderCounted {
      CountOccurs(s.pcs, m.cpu, PRETENDING);
    }
  }

  lemma {:induction false} PriorityFrom(s: State, w: nat, schedule: seq<Move>)
    requires Inv(s) && w < |s.pcs| <= WORD_VALUES && WindowOpen(s, w, schedule)
    ensures Count(Exec(s, schedule).pcs, ADMITTED) + ReaderReleases(s, schedule) == Count(s.pcs, ADMITTED)
  {
    if schedule == [] {
    } else {
      var before, m := schedule[..|schedule| - 1], schedule[|schedule| - 1];
      forall k | 0 <= k <= |before| ensures Exec(s, before[..k]).pcs[w] in WRITER_WINDOW {
        assert before[..k] == schedule[..k];
      }
      PriorityFrom(s, w, before);
      ExecInv(s, before);
      var r := Exec(s, before);
      assert r.pcs[w] in WRITER_WINDOW;
      PriorityStep(r, w, m);
    }
  }

  /** Over any run that stays inside one writer's window, no reader is admitted: the admitted readers
      at the start are those still admitted plus those that released. */
  lemma WriterPriority(n: nat, prefix: seq<Move>, w: nat, schedule: seq<Move>)
    requires w < n <= WORD_VALUES
    requires WindowOpen(Exec(Init(n), prefix), w, schedule)
    ensures var s := Exec(Init(n), prefix);
            Count(Exec(s, schedule).pcs, ADMITTED) + ReaderReleases(s, schedule) == Count(s.pcs, ADMITTED)
  {
    ReachableInv(n, prefix);
    PriorityFrom(Exec(Init(n), prefix), w, schedule);
  }

  // ----- no deadlock

  /** In every reachable state, unless all CPUs are idle, some CPU that is not idle can change the state. */
  lemma NoDeadlock(n: nat, schedule: seq<Move>)
    requires n <= WORD_VALUES
    ensures var s := Exec(Init(n), schedule);
            || (forall i :: 0 <= i < n ==> s.pcs[i] == Idle)
            || exists i: nat :: i < n && s.pcs[i] != Idle && StepCpu(s, Move(i, false)) != s
  {
    var s := Exec(Init(n), schedule);
    ReachableInv(n, schedule);
    if i: nat :| i < n && s.pcs[i] != Idle && s.pcs[i] != WriterWaiting && s.pcs[i] != ReaderWaiting {
      AssertsHold(n, schedule, i);
      StepMoves(s, i);
    } else {
      assert NobodyInside(s);
      if w: nat :| w < n && s.pcs[w] == WriterWaiting {
        WaiterAdmitted(s, w);
      } else if r: nat :| r < n && s.pcs[r] == ReaderWaiting {
        CountZero(s.pcs, ANNOUNCED);
        WaiterAdmitted(s, r);
      }
    }
  }

  ghost predicate NobodyInside(s: State) {
    forall i :: 0 <= i < |s.pcs| ==> s.pcs[i].Idle? || s.pcs[i].WriterWaiting? || s.pcs[i].ReaderWaiting?
  }

  lemma StepMoves(s: State, i: nat)
    requires i < |s.pcs| && s.pcs[i] !in {Idle, WriterWaiting, ReaderWaiting, Stopped}
    ensures StepCpu(s, Move(i, false)) != s
  {
    assert StepCpu(s, Move(i, false)).pcs[i] != s.pcs[i];
  }

  lemma WaiterAdmitted(s: State, i: nat)
    requires Inv(s) && NobodyInside(s) && i < |s.pcs|
    requires s.pcs[i] == WriterWaiting || (s.pcs[i] == ReaderWaiting && Count(s.pcs, ANNOUNCED) == 0)
    ensures StepCpu(s, Move(i, false)) != s
  {
    hide Inv;
    hide NobodyInside;
    hide Count;
    hide Step;
    QuietWords(s);
    StepAdmits(s.words, s.pcs[i]);
    assert StepCpu(s, Move(i, false)).pcs[i] == Step(s.words, s.pcs[i], false).1;
  }

  lemma QuietWords(s: State)
    requires Inv(s) && NobodyInside(s)
    ensures s.words.activeWriter == 0 && s.words.activeReaders == 0
    ensures Count(s.pcs, ANNOUNCED) == 0 ==> s.words.waitingWriters == 0
  {
    hide Count;
    CountZero(s.pcs, WRITING);
    CountZero(s.pcs, PRETENDING);
    CountZero(s.pcs, READING);
  }

  lemma StepAdmits(words: Words, pc: Pc)
    requires words.activeWriter == 0 && words.activeReaders == 0
    requires pc == WriterWaiting || (pc == ReaderWaiting && words.waitingWriters == 0)
    ensures Step(words, pc, false).1 != pc
  {
  }

  // ----- the lock in memory

  /** The lock's three fields and the CPUs that use it, updated in place. */
  class SharedLock {
    var WaitingWriters: Word
    var ActiveWriter: Word
    var ActiveReaders: Word
    var pcs: seq<Pc>

    ghost function Abstract(): State
      reads this
    {
      State(Words(WaitingWriters, ActiveWriter, ActiveReaders), pcs)
    }

    /** RwSpinlockInit, with `n` idle CPUs. */
    constructor (n: nat)
      ensures Abstract() == Init(n)
    {
      WaitingWriters, ActiveWriter, ActiveReaders := 0, 0, 0;
      pcs := seq(n, _ => Idle);
    }

    /** One atomic step of RwSpinlockAcquire or RwSpinlockRelease on one CPU. */
    method Advance(cpu: nat, exclusive: bool)
      requires cpu < |pcs|
      modifies this
      ensures Abstract() == StepCpu(old(Abstract()), Move(cpu, exclusive))
    {
      var next;
      match pcs[cpu] {
        case Idle =>
          next := if exclusive then WriterCalled else ReaderWaiting;
        case WriterCalled =>
          WaitingWriters := if WaitingWriters == 0xFFFF then 0 else WaitingWriters + 1;
          next := WriterWaiting;
        case WriterWaiting =>
          if ActiveWriter == 0 && ActiveReaders == 0 {
            ActiveWriter, ActiveReaders := 1, 0;
            next := WriterAdmitted;
          } else {
            next := WriterWaiting;
          }
        case WriterAdmitted =>
          WaitingWriters := if WaitingWriters == 0 then 0xFFFF else WaitingWriters - 1;
          next := WriterInside;
        case WriterInside =>
          next := if ActiveWriter == 1 then WriterLeaving else Stopped;
        case WriterLeaving =>
          ActiveWriter := if ActiveWriter == 0 then 0xFFFF else ActiveWriter - 1;
          next := Idle;
        case ReaderWaiting =>
          if WaitingWriters == 0 && ActiveWriter == 0 {
            WaitingWriters, ActiveWriter := 0, 1;
            next := ReaderAdmitted;
          } else {
            next := ReaderWaiting;
          }
        case ReaderAdmitted =>
          ActiveReaders := if ActiveReaders == 0xFFFF then 0 else ActiveReaders + 1;
          next := ReaderCounted;
        case ReaderCounted =>
          next := if ActiveWriter == 1 then ReaderConfessing else Stopped;
        case ReaderConfessing =>
          ActiveWriter := if ActiveWriter == 0 then 0xFFFF else ActiveWriter - 1;
          next := ReaderInside;
        case ReaderInside =>
          ActiveReaders := if ActiveReaders == 0 then 0xFFFF else ActiveReaders - 1;
          next := Idle;
        case Stopped =>
          next := Stopped;
      }
      pcs := pcs[cpu := next];
    }
  }
}
