/**
 The recursive reader/writer spinlock of CommonLib/src/rec_rw_spinlock.c. It wraps the lock of
 module RwSpinlock with a holder, a recursion depth and the interrupt state of each CPU, and is
 again a step machine over every schedule of N CPUs.

 A CPU calls as the header's annotations ask: it takes the lock shared only when it does not hold
 it, and may take it exclusively again while it already holds it exclusively. It hands each release
 the interrupt state that the matching acquire returned, so each CPU keeps a stack of them.
 */
module RecRwSpinlock {
  import opened MachineWords
  import Rw = RwSpinlock

  const DEFAULT_DEPTH_MAX: Byte := 2

  datatype Pc =
    | Idle
    | Testing                     // exclusive acquire; next: is Holder this CPU? (line 49)
    | Deepening                   // it is; next: the ASSERT of line 51 and the increment of line 56
    | Entering(exclusive: bool)   // inside RwSpinlockAcquire (line 62)
    | CheckingHolder(exclusive: bool)   // next: the ASSERT of line 64
    | CheckingDepth(exclusive: bool)    // next: the ASSERT of line 65
    | SettingDepth                // next: line 69
    | SettingHolder               // next: line 70
    | Held(exclusive: bool)       // holds the lock
    | CheckingOwner               // exclusive release; next: the ASSERT of line 92
    | Shallowing                  // next: line 93
    | TestingDepth(exclusive: bool)     // next: the test of line 96
    | ClearingHolder(exclusive: bool)   // next: line 98
    | Leaving(exclusive: bool)    // inside RwSpinlockRelease (line 101)
    | Restoring                   // next: RwSpinlockRelease restores the interrupt state
    | TooDeep                     // stopped by the ASSERT of line 51
    | Interruptible(exclusive: bool)    // stopped by the ASSERT of line 86
    | Stopped                     // stopped by any other ASSERT

  /** One CPU: its interrupt flag, which it may change while it holds nothing or the lock; the interrupt
      states its pending acquires returned; and (history only) the flag as it was when the CPU last held
      nothing. */
  datatype Cpu = Cpu(pc: Pc, interrupts: bool, saved: seq<bool>, home: bool)

  datatype Holder = Nobody | HeldBy(cpu: nat)

  datatype State = State(rw: Rw.State, holder: Holder, depth: Byte, max: Byte, cpus: seq<Cpu>)

  datatype Action = AcquireShared | AcquireExclusive | Release | ToggleInterrupts

  datatype Move = Move(cpu: nat, action: Action)

  /** RecRwSpinlockInit. */
  function Init(n: nat, recursivityDepth: Byte, interrupts: bool): State {
    State(Rw.Init(n), Nobody, 0, if recursivityDepth == 0 then DEFAULT_DEPTH_MAX else recursivityDepth,
          seq(n, _ => Cpu(Idle, interrupts, [], interrupts)))
  }

  /** CpuIntrDisable at the head of an acquire. */
  function Disable(c: Cpu, pc: Pc): Cpu {
    c.(pc := pc, interrupts := false, saved := c.saved + [c.interrupts])
  }

  function StopUnless(condition: bool, pc: Pc): Pc {
    if condition then pc else Stopped
  }

  /** The inner lock's move, if this step is one. */
  function InnerMove(s: State, m: Move): seq<Rw.Move> {
    if m.cpu < |s.cpus| && s.cpus[m.cpu].pc.Entering? then [Rw.Move(m.cpu, s.cpus[m.cpu].pc.exclusive)]
    else if m.cpu < |s.cpus| && s.cpus[m.cpu].pc.Leaving? then [Rw.Move(m.cpu, s.cpus[m.cpu].pc.exclusive)]
    else []
  }

  function Step(s: State, m: Move): (r: State)
    requires |s.rw.pcs| == |s.cpus|
    ensures |r.rw.pcs| == |r.cpus| == |s.cpus| && r.max == s.max
  {
    if m.cpu >= |s.cpus| then s else
    var c := s.cpus[m.cpu];
    match c.pc
    case Idle =>
      (match m.action
       case AcquireShared => s.(cpus := s.cpus[m.cpu := Disable(c, Entering(false))])
       case AcquireExclusive => s.(cpus := s.cpus[m.cpu := Disable(c, Testing)])
       case Release => s
       case ToggleInterrupts =>
         s.(cpus := s.cpus[m.cpu := c.(interrupts := !c.interrupts, home := !c.interrupts)]))
    case Testing =>
      s.(cpus := s.cpus[m.cpu := c.(pc := if s.holder == HeldBy(m.cpu) then Deepening else Entering(true))])
    case Deepening =>
      if s.depth < s.max
      then s.(depth := (s.depth + 1) % BYTE_VALUES, cpus := s.cpus[m.cpu := c.(pc := Held(true))])
      else s.(cpus := s.cpus[m.cpu := c.(pc := TooDeep)])
    case Entering(exclusive) =>
      var rw := Rw.StepCpu(s.rw, Rw.Move(m.cpu, exclusive));
      var inner := rw.pcs[m.cpu];
      s.(rw := rw, cpus := s.cpus[m.cpu := c.(pc :=
        if inner == Rw.WriterInside || inner == Rw.ReaderInside then CheckingHolder(exclusive)
        else StopUnless(inner != Rw.Stopped, Entering(exclusive)))])
    case CheckingHolder(exclusive) =>
      s.(cpus := s.cpus[m.cpu := c.(pc := StopUnless(s.holder == Nobody, CheckingDepth(exclusive)))])
    case CheckingDepth(exclusive) =>
      s.(cpus := s.cpus[m.cpu := c.(pc := StopUnless(s.depth == 0, if exclusive then SettingDepth else Held(false)))])
    case SettingDepth =>
      s.(depth := 1, cpus := s.cpus[m.cpu := c.(pc := SettingHolder)])
    case SettingHolder =>
      s.(holder := HeldBy(m.cpu), cpus := s.cpus[m.cpu := c.(pc := Held(true))])
    case Held(exclusive) =>
      (match m.action
       case Release =>
         s.(cpus := s.cpus[m.cpu := c.(pc :=
           if c.interrupts then Interruptible(exclusive)
           else if exclusive then CheckingOwner else TestingDepth(false))])
       case AcquireExclusive =>
         if exclusive then s.(cpus := s.cpus[m.cpu := Disable(c, Testing)]) else s
       case AcquireShared => s
       case ToggleInterrupts => s.(cpus := s.cpus[m.cpu := c.(interrupts := !c.interrupts)]))
    case CheckingOwner =>
      s.(cpus := s.cpus[m.cpu := c.(pc := StopUnless(s.holder == HeldBy(m.cpu), Shallowing))])
    case Shallowing =>
      s.(depth := (s.depth + BYTE_VALUES - 1) % BYTE_VALUES, cpus := s.cpus[m.cpu := c.(pc := TestingDepth(true))])
    case TestingDepth(exclusive) =>
      if s.depth == 0 || !exclusive
      then s.(cpus := s.cpus[m.cpu := c.(pc := ClearingHolder(exclusive))])
      else s.(cpus := s.cpus[m.cpu :=
        c.(pc := Held(true), saved := if c.saved == [] then [] else c.saved[..|c.saved| - 1])])
    case ClearingHolder(exclusive) =>
      s.(holder := Nobody, cpus := s.cpus[m.cpu := c.(pc := Leaving(exclusive))])
    case Leaving(exclusive) =>
      var rw := Rw.StepCpu(s.rw, Rw.Move(m.cpu, exclusive));
      var inner := rw.pcs[m.cpu];
      s.(rw := rw, cpus := s.cpus[m.cpu := c.(pc :=
        if inner == Rw.Idle then Restoring else StopUnless(inner != Rw.Stopped, Leaving(exclusive)))])
    case Restoring =>
      s.(cpus := s.cpus[m.cpu := if c.saved == [] then c else
        c.(pc := Idle, interrupts := c.saved[|c.saved| - 1], saved := c.saved[..|c.saved| - 1])])
    case TooDeep => s
    case Interruptible(_) => s
    case Stopped => s
  }

  function Exec(s: State, schedule: seq<Move>): (r: State)
    requires |s.rw.pcs| == |s.cpus|
    ensures |r.rw.pcs| == |r.cpus| == |s.cpus| && r.max == s.max
  {
    if schedule == [] then s
    else Step(Exec(s, schedule[..|schedule| - 1]), schedule[|schedule| - 1])
  }

  // ----- the wrapper uses the inner lock as a lock

  /** The inner lock's part of a schedule. */
  function Project(s: State, schedule: seq<Move>): seq<Rw.Move>
    requires |s.rw.pcs| == |s.cpus|
  {
    if schedule == [] then []
    else
      var before := schedule[..|schedule| - 1];
      Project(s, before) + InnerMove(Exec(s, before), schedule[|schedule| - 1])
  }

  lemma StepProjects(s: State, m: Move)
    requires |s.rw.pcs| == |s.cpus|
    ensures Step(s, m).rw == Rw.Exec(s.rw, InnerMove(s, m))
  {
    if InnerMove(s, m) != [] {
      Rw.ExecOne(s.rw, InnerMove(s, m)[0]);
    }
  }

  /** Every run of the recursive lock is, seen from the inner lock, a run of the inner lock. */
  lemma {:induction false} RefinesInnerLock(s: State, schedule: seq<Move>)
    requires |s.rw.pcs| == |s.cpus|
    ensures Exec(s, schedule).rw == Rw.Exec(s.rw, Project(s, schedule))
  {
    if schedule == [] {
    } else {
      var before, m := schedule[..|schedule| - 1], schedule[|schedule| - 1];
      RefinesInnerLock(s, before);
      var r := Exec(s, before);
      StepProjects(r, m);
      Rw.ExecAppend(s.rw, Project(s, before), InnerMove(r, m));
    }
  }

  // ----- the inductive invariant

  /** The CPU that Holder names. */
  ghost predicate Owns(pc: Pc, inner: Rw.Pc) {
    match pc
    case Deepening | Held(true) | CheckingOwner | Shallowing | TestingDepth(true) | ClearingHolder(true)
       | TooDeep | Interruptible(true) => true
    case Testing => inner == Rw.WriterInside
    case _ => false
  }

  /** The recursion depth that goes with a place in the code and the number of pending acquires. */
  function DepthAt(pc: Pc, pending: int): int {
    match pc
    case Testing | Deepening | TooDeep | TestingDepth(true) | ClearingHolder(true) => pending - 1
    case _ => pending
  }

  /** Where the inner lock stands for each place in the wrapper. */
  ghost predicate Nested(pc: Pc, inner: Rw.Pc) {
    match pc
    case Idle | Restoring => inner == Rw.Idle
    case Testing => inner == Rw.Idle || inner == Rw.WriterInside
    case Entering(true) => inner.Idle? || inner.WriterCalled? || inner.WriterWaiting? || inner.WriterAdmitted?
    case Entering(false) =>
      inner.Idle? || inner.ReaderWaiting? || inner.ReaderAdmitted? || inner.ReaderCounted? || inner.ReaderConfessing?
    case Leaving(true) => inner.WriterInside? || inner.WriterLeaving?
    case CheckingHolder(false) | CheckingDepth(false) | Held(false) | TestingDepth(false)
       | ClearingHolder(false) | Leaving(false) | Interruptible(false) => inner == Rw.ReaderInside
    case Stopped => false
    case _ => inner == Rw.WriterInside
  }

  ghost predicate CpuOk(c: Cpu, inner: Rw.Pc, mine: bool, depth: Byte, max: Byte) {
    && Nested(c.pc, inner)
    && (mine <==> Owns(c.pc, inner))
    && (Owns(c.pc, inner) || c.pc == SettingHolder ==> depth == DepthAt(c.pc, |c.saved|))
    && (c.pc == Idle ==> c.saved == [] && c.interrupts == c.home)
    && (c.pc != Idle ==> |c.saved| >= 1 && c.saved[0] == c.home)
    && (c.interrupts ==> c.pc.Idle? || c.pc.Held? || c.pc.Interruptible?)
    && (!Owns(c.pc, inner) && c.pc != Idle ==> |c.saved| == 1)
    && (match c.pc
        case ClearingHolder(true) => depth == 0
        case TestingDepth(true) => depth < max
        case TooDeep => depth == max
        case _ => Owns(c.pc, inner) ==> 1 <= depth <= max)
  }

  ghost predicate CpuOkAt(s: State, i: nat)
    requires i < |s.cpus| == |s.rw.pcs|
  {
    CpuOk(s.cpus[i], s.rw.pcs[i], s.holder == HeldBy(i), s.depth, s.max)
  }

  ghost predicate DepthOwner(s: State, i: nat)
    requires i < |s.cpus| == |s.rw.pcs|
  {
    Owns(s.cpus[i].pc, s.rw.pcs[i]) || s.cpus[i].pc == SettingHolder
  }

  ghost predicate Inv(s: State) {
    && |s.rw.pcs| == |s.cpus| <= WORD_VALUES
    && s.max >= 1
    && Rw.Inv(s.rw)
    && (s.holder.HeldBy? ==> s.holder.cpu < |s.cpus|)
    && (forall i: nat :: i < |s.cpus| ==> CpuOkAt(s, i))
    && (s.depth != 0 ==> exists i: nat :: i < |s.cpus| && DepthOwner(s, i))
  }

  /** While one CPU is inside the inner lock, no other CPU has a claim on depth and holder. */
  lemma OthersHaveNoClaim(s: State, i: nat, j: nat)
    requires Inv(s) && i < |s.cpus| && j < |s.cpus| && i != j
    requires s.rw.pcs[i] in Rw.WRITING || s.rw.pcs[i] in Rw.ADMITTED
    ensures !DepthOwner(s, j)
  {
    Rw.InvExclusive(s.rw);
    assert CpuOkAt(s, j);
  }

  lemma OthersUntouched(s: State, m: Move, j: nat)
    requires |s.rw.pcs| == |s.cpus| && j < |s.cpus| && j != m.cpu
    ensures Step(s, m).cpus[j] == s.cpus[j] && Step(s, m).rw.pcs[j] == s.rw.pcs[j]
    ensures Step(s, m).holder == s.holder
         || (m.cpu < |s.cpus| && s.cpus[m.cpu].pc in {SettingHolder, ClearingHolder(true), ClearingHolder(false)})
    ensures Step(s, m).depth == s.depth
         || (m.cpu < |s.cpus| && s.cpus[m.cpu].pc in {Deepening, SettingDepth, Shallowing})
  {
  }

  lemma StepOther(s: State, m: Move, j: nat)
    requires Inv(s) && m.cpu < |s.cpus| && j < |s.cpus| && j != m.cpu
    ensures CpuOkAt(Step(s, m), j)
  {
    assert CpuOkAt(s, j) && CpuOkAt(s, m.cpu);
    OthersUntouched(s, m, j);
    if s.cpus[m.cpu].pc in
      {SettingHolder, ClearingHolder(true), ClearingHolder(false), Deepening, SettingDepth, Shallowing}
    {
      OthersHaveNoClaim(s, m.cpu, j);
    }
  }

  /** The wrapper's own asserts hold where they are evaluated: nobody else has a claim. */
  lemma NoClaimLeft(s: State, i: nat)
    requires Inv(s) && i < |s.cpus|
    requires s.cpus[i].pc in
      {CheckingHolder(true), CheckingHolder(false), CheckingDepth(true), CheckingDepth(false)}
    ensures s.holder == Nobody && s.depth == 0
  {
    assert CpuOkAt(s, i);
    if s.holder.HeldBy? {
      assert CpuOkAt(s, s.holder.cpu);
      OthersHaveNoClaim(s, i, s.holder.cpu);
    }
    if s.depth != 0 {
      var j: nat :| j < |s.cpus| && DepthOwner(s, j);
      OthersHaveNoClaim(s, i, j);
    }
  }

  lemma InnerStep(s: State, i: nat, exclusive: bool)
    requires Inv(s) && i < |s.cpus| && s.cpus[i].pc in {Entering(exclusive), Leaving(exclusive)}
    ensures var rw := Rw.StepCpu(s.rw, Rw.Move(i, exclusive));
            && Rw.Inv(rw)
            && Nested(Step(s, Move(i, Release)).cpus[i].pc, rw.pcs[i])
  {
    assert CpuOkAt(s, i);
    Rw.StepInv(s.rw, Rw.Move(i, exclusive));
    var rw := Rw.StepCpu(s.rw, Rw.Move(i, exclusive));
    if rw.pcs[i] == Rw.Stopped {
      Rw.CountOccurs(rw.pcs, i, {Rw.Stopped});
    }
  }

  predicate InAcquire(pc: Pc) {
    pc.Idle? || pc.Testing? || pc.Deepening? || Checking(pc) || pc.SettingDepth? || pc.SettingHolder?
  }

  predicate Checking(pc: Pc) {
    pc.CheckingHolder? || pc.CheckingDepth?
  }

  /** The steps of an acquire outside the inner lock keep the CPU's own part of the invariant. */
  lemma AcquireStep(s: State, m: Move)
    requires |s.rw.pcs| == |s.cpus| && m.cpu < |s.cpus| && s.max >= 1 && CpuOkAt(s, m.cpu)
    requires InAcquire(s.cpus[m.cpu].pc) && !Checking(s.cpus[m.cpu].pc)
    ensures CpuOkAt(Step(s, m), m.cpu)
  {
    hide Rw.StepCpu;
  }

  lemma CheckStep(s: State, m: Move)
    requires |s.rw.pcs| == |s.cpus| && m.cpu < |s.cpus| && s.max >= 1 && CpuOkAt(s, m.cpu)
    requires Checking(s.cpus[m.cpu].pc) && s.holder == Nobody && s.depth == 0
    ensures CpuOkAt(Step(s, m), m.cpu)
  {
    hide Rw.StepCpu;
  }

  /** So do the steps of a CPU that holds the lock. */
  lemma HeldStep(s: State, m: Move)
    requires |s.rw.pcs| == |s.cpus| && m.cpu < |s.cpus| && CpuOkAt(s, m.cpu) && s.cpus[m.cpu].pc.Held?
    ensures CpuOkAt(Step(s, m), m.cpu)
  {
    hide Rw.StepCpu;
  }

  lemma OwnerStep(s: State, m: Move)
    requires |s.rw.pcs| == |s.cpus| && m.cpu < |s.cpus| && CpuOkAt(s, m.cpu) && s.cpus[m.cpu].pc.CheckingOwner?
    ensures CpuOkAt(Step(s, m), m.cpu)
  {
    hide Rw.StepCpu;
  }

  lemma NoStep(s: State, m: Move)
    requires |s.rw.pcs| == |s.cpus| && m.cpu < |s.cpus|
    requires s.cpus[m.cpu].pc.TooDeep? || s.cpus[m.cpu].pc.Interruptible?
    ensures Step(s, m) == s
  {
    hide Rw.StepCpu;
  }

  /** And those of a release. */
  lemma ReleaseStep(s: State, m: Move)
    requires |s.rw.pcs| == |s.cpus| && m.cpu < |s.cpus| && s.max >= 1 && CpuOkAt(s, m.cpu)
    requires var pc := s.cpus[m.cpu].pc;
             pc.Shallowing? || pc.TestingDepth? || pc.ClearingHolder? || pc.Restoring?
    ensures CpuOkAt(Step(s, m), m.cpu)
  {
    hide Rw.StepCpu;
  }

  lemma InnerCpuOk(s: State, m: Move)
    requires Inv(s) && m.cpu < |s.cpus| && (s.cpus[m.cpu].pc.Entering? || s.cpus[m.cpu].pc.Leaving?)
    ensures CpuOkAt(Step(s, m), m.cpu)
  {
    hide Rw.Inv;
    hide Rw.StepCpu;
    assert CpuOkAt(s, m.cpu);
    InnerStep(s, m.cpu, s.cpus[m.cpu].pc.exclusive);
  }

  lemma StepSelf(s: State, m: Move)
    requires Inv(s) && m.cpu < |s.cpus|
    ensures CpuOkAt(Step(s, m), m.cpu)
  {
    hide Step;
    hide CpuOkAt;
    assert CpuOkAt(s, m.cpu);
    var pc := s.cpus[m.cpu].pc;
    if pc.Entering? || pc.Leaving? {
      InnerCpuOk(s, m);
    } else if Checking(pc) {
      NoClaimLeft(s, m.cpu);
      CheckStep(s, m);
    } else if InAcquire(pc) {
      AcquireStep(s, m);
    } else if pc.Held? {
      HeldStep(s, m);
    } else if pc.CheckingOwner? {
      OwnerStep(s, m);
    } else if pc.TooDeep? || pc.Interruptible? {
      NoStep(s, m);
    } else if pc.Stopped? {
      NobodyStopped(s, m.cpu);
    } else {
      ReleaseStep(s, m);
    }
  }

  lemma NobodyStopped(s: State, i: nat)
    requires |s.rw.pcs| == |s.cpus| && i < |s.cpus| && CpuOkAt(s, i)
    ensures !s.cpus[i].pc.Stopped?
  {
  }

  /** What a step leaves alone. */
  lemma StepFrame(s: State, m: Move)
    requires |s.rw.pcs| == |s.cpus| && m.cpu < |s.cpus|
    ensures
      var pc, r := s.cpus[m.cpu].pc, Step(s, m);
      && (r.holder == s.holder || r.holder == Nobody || r.holder == HeldBy(m.cpu))
      && r.rw == if pc.Entering? || pc.Leaving? then Rw.StepCpu(s.rw, Rw.Move(m.cpu, pc.exclusive)) else s.rw
  {
    hide Rw.StepCpu;
  }

  lemma StepDepth(s: State, m: Move)
    requires Inv(s) && m.cpu < |s.cpus| && Step(s, m).depth != 0
    ensures exists i: nat :: i < |s.cpus| && DepthOwner(Step(s, m), i)
  {
    var r := Step(s, m);
    StepSelf(s, m);
    assert CpuOkAt(s, m.cpu) && CpuOkAt(r, m.cpu);
    if s.depth != 0 {
      var j: nat :| j < |s.cpus| && DepthOwner(s, j);
      if j != m.cpu {
        OthersUntouched(s, m, j);
      }
      assert DepthOwner(r, j);
    } else {
      assert DepthOwner(r, m.cpu);
    }
  }

  lemma StepInv(s: State, m: Move)
    requires Inv(s)
    ensures Inv(Step(s, m))
  {
    hide CpuOkAt;
    if m.cpu < |s.cpus| {
      hide Step;
      var r := Step(s, m);
      StepSelf(s, m);
      StepFrame(s, m);
      forall j: nat | j < |s.cpus| ensures CpuOkAt(r, j) {
        if j != m.cpu {
          StepOther(s, m, j);
        }
      }
      if s.cpus[m.cpu].pc.Entering? || s.cpus[m.cpu].pc.Leaving? {
        InnerStep(s, m.cpu, s.cpus[m.cpu].pc.exclusive);
      }
      if r.depth != 0 {
        StepDepth(s, m);
      }
    }
  }

  lemma {:induction false} ExecInv(s: State, schedule: seq<Move>)
    requires Inv(s)
    ensures Inv(Exec(s, schedule))
  {
    if schedule == [] {
    } else {
      var before := schedule[..|schedule| - 1];
      ExecInv(s, before);
      var r := Exec(s, before);
      StepInv(r, schedule[|schedule| - 1]);
    }
  }

  lemma InitInv(n: nat, recursivityDepth: Byte, interrupts: bool)
    requires n <= WORD_VALUES
    ensures Inv(Init(n, recursivityDepth, interrupts))
  {
    Rw.InitInv(n);
  }

  lemma ReachableInv(n: nat, recursivityDepth: Byte, interrupts: bool, schedule: seq<Move>)
    requires n <= WORD_VALUES
    ensures Inv(Exec(Init(n, recursivityDepth, interrupts), schedule))
  {
    InitInv(n, recursivityDepth, interrupts);
    ExecInv(Init(n, recursivityDepth, interrupts), schedule);
  }

  // ----- what holds in every reachable state

  /** The CPU holds the lock neither for reading nor for writing. */
  ghost predicate OutsideLock(s: State, j: nat)
    requires j < |s.cpus| == |s.rw.pcs|
  {
    s.rw.pcs[j] !in Rw.WRITING && s.rw.pcs[j] !in Rw.ADMITTED && !s.cpus[j].pc.Held?
  }

  /** The holder is the one CPU that has the lock exclusively. Wherever Holder names it, the depth counts its
      pending acquires (but for one that has not been counted yet, or is already discounted) and is between 1
      and the maximum; only in a release, between line 93 and line 98, it may be 0. */
  lemma HolderIsExclusive(n: nat, recursivityDepth: Byte, interrupts: bool, schedule: seq<Move>, i: nat)
    requires n <= WORD_VALUES && i < n
    ensures var s := Exec(Init(n, recursivityDepth, interrupts), schedule);
            && (s.cpus[i].pc == Held(true) ==> s.holder == HeldBy(i))
            && (s.holder == HeldBy(i) ==>
                  && s.rw.pcs[i] == Rw.WriterInside
                  && (forall j: nat :: j < n && j != i ==> OutsideLock(s, j))
                  && s.depth <= s.max && s.depth == DepthAt(s.cpus[i].pc, |s.cpus[i].saved|)
                  && (s.cpus[i].pc != TestingDepth(true) && s.cpus[i].pc != ClearingHolder(true) ==> 1 <= s.depth)
                  && (s.cpus[i].pc == ClearingHolder(true) ==> s.depth == 0)
                  && (s.cpus[i].pc == Held(true) ==> s.depth == |s.cpus[i].saved|))
  {
    ReachableInv(n, recursivityDepth, interrupts, schedule);
    var s := Exec(Init(n, recursivityDepth, interrupts), schedule);
    assert CpuOkAt(s, i);
    if s.holder == HeldBy(i) {
      Rw.InvExclusive(s.rw);
      forall j: nat | j < n && j != i
        ensures OutsideLock(s, j)
      {
        assert CpuOkAt(s, j);
      }
    }
  }

  /** Two ASSERTs can stop a CPU and no others: the recursion limit, exactly on re-entry at the maximum
      depth, and that on the interrupt state, exactly on a release with interrupts enabled. */
  lemma StopsExactly(n: nat, recursivityDepth: Byte, interrupts: bool, schedule: seq<Move>, m: Move)
    requires n <= WORD_VALUES && m.cpu < n
    ensures var s := Exec(Init(n, recursivityDepth, interrupts), schedule);
            var c, pc := s.cpus[m.cpu], Step(s, m).cpus[m.cpu].pc;
            && pc != Stopped
            && (pc == TooDeep && c.pc != TooDeep <==> c.pc == Deepening && s.depth == s.max)
            && (pc.Interruptible? && !c.pc.Interruptible?
                <==> c.pc.Held? && m.action == Release && c.interrupts)
  {
    hide Step;
    hide CpuOkAt;
    ReachableInv(n, recursivityDepth, interrupts, schedule);
    var s := Exec(Init(n, recursivityDepth, interrupts), schedule);
    assert CpuOkAt(s, m.cpu);
    StepSelf(s, m);
    StepStops(s, m);
  }

  lemma StepStops(s: State, m: Move)
    requires |s.rw.pcs| == |s.cpus| && m.cpu < |s.cpus| && CpuOkAt(s, m.cpu) && CpuOkAt(Step(s, m), m.cpu)
    ensures
      var c, pc := s.cpus[m.cpu], Step(s, m).cpus[m.cpu].pc;
      && pc != Stopped
      && (pc == TooDeep && c.pc != TooDeep <==> c.pc == Deepening && s.depth == s.max)
      && (pc.Interruptible? && !c.pc.Interruptible? <==> c.pc.Held? && m.action == Release && c.interrupts)
  {
    hide Rw.StepCpu;
    var after := Step(s, m);
    NobodyStopped(after, m.cpu);
  }

  /** A shared release writes NULL into Holder (line 98); there is never a live holder to erase. */
  lemma SharedReleaseErasesNothing(n: nat, recursivityDepth: Byte, interrupts: bool, schedule: seq<Move>, i: nat)
    requires n <= WORD_VALUES && i < n
    requires Exec(Init(n, recursivityDepth, interrupts), schedule).cpus[i].pc == ClearingHolder(false)
    ensures Exec(Init(n, recursivityDepth, interrupts), schedule).holder == Nobody
  {
    ReachableInv(n, recursivityDepth, interrupts, schedule);
    var s := Exec(Init(n, recursivityDepth, interrupts), schedule);
    assert CpuOkAt(s, i);
    if s.holder.HeldBy? {
      assert CpuOkAt(s, s.holder.cpu);
      OthersHaveNoClaim(s, i, s.holder.cpu);
    }
  }

  // ----- interrupts

  /** The CPU does not itself change its interrupt flag during the schedule. */
  ghost predicate LeavesInterruptsAlone(i: nat, schedule: seq<Move>) {
    Move(i, ToggleInterrupts) !in schedule
  }

  /** It changes it, if at all, only while it holds the lock or is busy with it. */
  ghost predicate TogglesInsideOnly(s: State, i: nat, schedule: seq<Move>)
    requires |s.rw.pcs| == |s.cpus| && i < |s.cpus|
  {
    forall k: nat :: k < |schedule| && schedule[k] == Move(i, ToggleInterrupts)
                     ==> Exec(s, schedule[..k]).cpus[i].pc != Idle
  }

  /** A CPU that holds nothing, or the lock, can change its flag, and nothing else changes. */
  lemma TogglesExactly(s: State, i: nat)
    requires |s.rw.pcs| == |s.cpus| && i < |s.cpus|
    ensures
      var r, c := Step(s, Move(i, ToggleInterrupts)), s.cpus[i];
      && (c.pc == Idle ==> r == s.(cpus := s.cpus[i := Cpu(Idle, !c.interrupts, c.saved, !c.interrupts)]))
      && (c.pc.Held? ==> r == s.(cpus := s.cpus[i := Cpu(c.pc, !c.interrupts, c.saved, c.home)]))
  {
    hide Rw.StepCpu;
  }

  lemma HomeKept(s: State, m: Move, i: nat)
    requires |s.rw.pcs| == |s.cpus| && i < |s.cpus| && (m != Move(i, ToggleInterrupts) || s.cpus[i].pc != Idle)
    ensures Step(s, m).cpus[i].home == s.cpus[i].home
  {
    hide Rw.StepCpu;
  }

  lemma {:induction false} HomeKeptOver(s: State, schedule: seq<Move>, i: nat)
    requires |s.rw.pcs| == |s.cpus| && i < |s.cpus| && TogglesInsideOnly(s, i, schedule)
    ensures Exec(s, schedule).cpus[i].home == s.cpus[i].home
  {
    hide Step;
    if schedule == [] {
    } else {
      var last := |schedule| - 1;
      var before := schedule[..last];
      assert forall k: nat :: k < last ==> before[..k] == schedule[..k] && before[k] == schedule[k];
      HomeKeptOver(s, before, i);
      HomeKept(Exec(s, before), schedule[last], i);
    }
  }

  /** Interrupts are off, unless the CPU holds nothing. */
  ghost predicate OffInside(c: Cpu) {
    c.pc != Idle ==> !c.interrupts && !c.pc.Interruptible?
  }

  lemma OffKept(s: State, m: Move, i: nat)
    requires |s.rw.pcs| == |s.cpus| && i < |s.cpus| && m != Move(i, ToggleInterrupts) && OffInside(s.cpus[i])
    ensures OffInside(Step(s, m).cpus[i])
  {
    hide Rw.StepCpu;
  }

  lemma {:induction false} OffKeptOver(s: State, schedule: seq<Move>, i: nat)
    requires |s.rw.pcs| == |s.cpus| && i < |s.cpus| && LeavesInterruptsAlone(i, schedule) && OffInside(s.cpus[i])
    ensures OffInside(Exec(s, schedule).cpus[i])
  {
    hide Step;
    if schedule == [] {
    } else {
      var before, m := schedule[..|schedule| - 1], schedule[|schedule| - 1];
      OffKeptOver(s, before, i);
      assert m in schedule;
      OffKept(Exec(s, before), m, i);
    }
  }

  /** When the CPU is back where it holds nothing, its interrupt flag is what it was before the outermost
      acquire, even if it changed it while it held the lock. If it did not, interrupts are off from the
      outermost acquire to the end of the outermost release, and the release is never stopped. */
  lemma InterruptsRestored(n: nat, recursivityDepth: Byte, interrupts: bool, prefix: seq<Move>, i: nat,
                           schedule: seq<Move>)
    requires n <= WORD_VALUES && i < n
    requires Exec(Init(n, recursivityDepth, interrupts), prefix).cpus[i].pc == Idle
    requires TogglesInsideOnly(Exec(Init(n, recursivityDepth, interrupts), prefix), i, schedule)
    ensures var s := Exec(Init(n, recursivityDepth, interrupts), prefix); var r := Exec(s, schedule);
            && (r.cpus[i].pc == Idle ==> r.cpus[i].interrupts == s.cpus[i].interrupts)
            && (LeavesInterruptsAlone(i, schedule) && r.cpus[i].pc != Idle ==>
                  !r.cpus[i].interrupts && !r.cpus[i].pc.Interruptible?)
  {
    hide Step;
    ReachableInv(n, recursivityDepth, interrupts, prefix);
    var s := Exec(Init(n, recursivityDepth, interrupts), prefix);
    ExecInv(s, schedule);
    HomeKeptOver(s, schedule, i);
    assert CpuOkAt(s, i) && CpuOkAt(Exec(s, schedule), i);
    if LeavesInterruptsAlone(i, schedule) {
      OffKeptOver(s, schedule, i);
    }
  }

  /** A holder that enables interrupts and then releases is stopped, with the lock still held. */
  lemma EnablingHolderIsStopped(n: nat, recursivityDepth: Byte, interrupts: bool, schedule: seq<Move>, i: nat)
    requires n <= WORD_VALUES && i < n
    requires var c := Exec(Init(n, recursivityDepth, interrupts), schedule).cpus[i]; c.pc.Held? && !c.interrupts
    ensures var s := Exec(Init(n, recursivityDepth, interrupts), schedule);
            var r := Step(Step(s, Move(i, ToggleInterrupts)), Move(i, Release));
            r.cpus[i].pc == Interruptible(s.cpus[i].pc.exclusive) && r.rw.pcs[i] == s.rw.pcs[i]
  {
    hide Rw.StepCpu;
  }

  // ----- progress

  /** The CPU has the lock, maybe for good. */
  predicate HasLock(pc: Pc) {
    pc.Held? || pc.TooDeep? || pc.Interruptible?
  }

  /** The CPU is in the middle of an acquire or a release. */
  predicate IsBusy(pc: Pc) {
    !pc.Idle? && !HasLock(pc)
  }

  /** In every reachable state in which a CPU is busy, either some busy CPU can change the state, or there is
      one that has the lock. */
  lemma NoDeadlock(n: nat, recursivityDepth: Byte, interrupts: bool, schedule: seq<Move>)
    requires n <= WORD_VALUES
    ensures var s := Exec(Init(n, recursivityDepth, interrupts), schedule);
            || (forall i: nat :: i < n ==> !IsBusy(s.cpus[i].pc))
            || (exists i: nat :: i < n && IsBusy(s.cpus[i].pc) && Step(s, Move(i, Release)) != s)
            || (exists i: nat :: i < n && HasLock(s.cpus[i].pc))
  {
    hide Step;
    hide CpuOk;
    var start := Init(n, recursivityDepth, interrupts);
    var s := Exec(start, schedule);
    ReachableInv(n, recursivityDepth, interrupts, schedule);
    if (forall i: nat :: i < n ==> !HasLock(s.cpus[i].pc)) && exists i: nat :: i < n && IsBusy(s.cpus[i].pc) {
      var i: nat :| i < n && IsBusy(s.cpus[i].pc);
      if j: nat :| j < n && IsBusy(s.cpus[j].pc) && !s.cpus[j].pc.Entering? {
        assert CpuOkAt(s, j);
        BusyMoves(s, j);
      } else {
        RefinesInnerLock(start, schedule);
        Rw.NoDeadlock(n, Project(start, schedule));
        if j: nat :| j < n && s.rw.pcs[j] != Rw.Idle && Rw.StepCpu(s.rw, Rw.Move(j, false)) != s.rw {
          assert CpuOkAt(s, j);
          EntererMoves(s, j);
        } else {
          assert CpuOkAt(s, i);
          CallerMoves(s, i);
        }
      }
    }
  }

  lemma BusyMoves(s: State, i: nat)
    requires |s.rw.pcs| == |s.cpus| && i < |s.cpus| && CpuOkAt(s, i)
    requires IsBusy(s.cpus[i].pc) && !s.cpus[i].pc.Entering?
    ensures Step(s, Move(i, Release)) != s
  {
    var c := s.cpus[i];
    var r := Step(s, Move(i, Release));
    if c.pc.Leaving? {
      hide Rw.StepCpu;
      LeaverMoves(s, i);
    } else {
      hide Rw.StepCpu;
      assert r.cpus[i].pc != c.pc;
    }
  }

  lemma LeaverMoves(s: State, i: nat)
    requires |s.rw.pcs| == |s.cpus| && i < |s.cpus| && CpuOkAt(s, i) && s.cpus[i].pc.Leaving?
    ensures Rw.StepCpu(s.rw, Rw.Move(i, s.cpus[i].pc.exclusive)) != s.rw
  {
    var r := Rw.StepCpu(s.rw, Rw.Move(i, s.cpus[i].pc.exclusive));
    assert r.pcs[i] != s.rw.pcs[i];
  }

  lemma EntererMoves(s: State, i: nat)
    requires |s.rw.pcs| == |s.cpus| && i < |s.cpus| && CpuOkAt(s, i)
    requires s.rw.pcs[i] != Rw.Idle && Rw.StepCpu(s.rw, Rw.Move(i, false)) != s.rw
    requires s.cpus[i].pc.Idle? || s.cpus[i].pc.Entering?
    ensures IsBusy(s.cpus[i].pc) && Step(s, Move(i, Release)) != s
  {
    assert Rw.StepCpu(s.rw, Rw.Move(i, true)) == Rw.StepCpu(s.rw, Rw.Move(i, false));
    hide Rw.StepCpu;
    StepFrame(s, Move(i, Release));
  }

  lemma CallerMoves(s: State, i: nat)
    requires |s.rw.pcs| == |s.cpus| && i < |s.cpus| && s.cpus[i].pc.Entering? && s.rw.pcs[i] == Rw.Idle
    ensures Step(s, Move(i, Release)) != s
  {
    var exclusive := s.cpus[i].pc.exclusive;
    assert Rw.StepCpu(s.rw, Rw.Move(i, exclusive)).pcs[i] != Rw.Idle;
    hide Rw.StepCpu;
    StepFrame(s, Move(i, Release));
  }

  // ----- one CPU alone

  /** k steps of one CPU in a row. */
  function Repeat(s: State, m: Move, k: nat): (r: State)
    requires |s.rw.pcs| == |s.cpus|
    ensures |r.rw.pcs| == |r.cpus| == |s.cpus|
    decreases k
  {
    if k == 0 then s else Repeat(Step(s, m), m, k - 1)
  }

  lemma {:induction false} RepeatSum(s: State, m: Move, j: nat, k: nat)
    requires |s.rw.pcs| == |s.cpus|
    ensures Repeat(s, m, j + k) == Repeat(Repeat(s, m, j), m, k)
    decreases j
  {
    hide Step;
    if j == 0 {
    } else {
      RepeatSum(Step(s, m), m, j - 1, k);
    }
  }

  lemma RepeatOnce(s: State, m: Move)
    requires |s.rw.pcs| == |s.cpus|
    ensures Repeat(s, m, 1) == Step(s, m) && Repeat(s, m, 0) == s
  {
    hide Step;
    assert Repeat(Step(s, m), m, 0) == Step(s, m);
  }

  lemma {:induction false} RepeatIsExec(s: State, m: Move, k: nat)
    requires |s.rw.pcs| == |s.cpus|
    ensures Exec(s, seq(k, _ => m)) == Repeat(s, m, k)
  {
    hide Step;
    var schedule := seq(k, _ => m);
    if k == 0 {
    } else {
      assert schedule[..k - 1] == seq(k - 1, _ => m);
      RepeatIsExec(s, m, k - 1);
      RepeatSum(s, m, k - 1, 1);
      RepeatOnce(Repeat(s, m, k - 1), m);
    }
  }

  /** CPU i holds nothing, and the lock is free but for so many readers. */
  predicate FreeFor(s: State, i: nat, readers: Word) {
    && |s.rw.pcs| == |s.cpus| && i < |s.cpus|
    && s.rw.words == Rw.Words(0, 0, readers) && s.rw.pcs[i] == Rw.Idle
    && s.holder == Nobody && s.depth == 0
    && s.cpus[i].pc == Idle && s.cpus[i].saved == []
  }

  /** The state that one step from s makes of CPU i, the inner lock, the holder and the depth. */
  function With(s: State, i: nat, words: Rw.Words, inner: Rw.Pc, holder: Holder, depth: Byte, c: Cpu): State
    requires i < |s.cpus| == |s.rw.pcs|
  {
    State(Rw.State(words, s.rw.pcs[i := inner]), holder, depth, s.max, s.cpus[i := c])
  }

  /** Where the wrapper goes on when the inner lock has made a step. */
  function AfterInner(pc: Pc, inner: Rw.Pc): Pc
    requires pc.Entering? || pc.Leaving?
  {
    if inner == Rw.Stopped then Stopped
    else if pc.Entering? && (inner == Rw.WriterInside || inner == Rw.ReaderInside) then CheckingHolder(pc.exclusive)
    else if pc.Leaving? && inner == Rw.Idle then Restoring
    else pc
  }

  /** A step inside the inner lock. */
  lemma InnerAdvance(s: State, i: nat, words: Rw.Words, inner: Rw.Pc, holder: Holder, depth: Byte, c: Cpu, m: Move)
    requires i < |s.cpus| == |s.rw.pcs| && m.cpu == i && (c.pc.Entering? || c.pc.Leaving?)
    ensures
      var (after, next) := Rw.Step(words, inner, c.pc.exclusive);
      Step(With(s, i, words, inner, holder, depth, c), m)
      == With(s, i, after, next, holder, depth, c.(pc := AfterInner(c.pc, next)))
  {
    hide Rw.Step;
    var t := With(s, i, words, inner, holder, depth, c);
    var (after, next) := Rw.Step(words, inner, c.pc.exclusive);
    assert Rw.StepCpu(t.rw, Rw.Move(i, c.pc.exclusive)) == Rw.State(after, s.rw.pcs[i := next]);
    hide Rw.StepCpu;
  }

  /** The steps of a writer and of a reader through the inner lock, when nothing is in their way. */
  lemma InnerSteps(readers: Word)
    requires readers < WORD_VALUES - 1
    ensures Rw.Step(Rw.Words(0, 0, 0), Rw.Idle, true) == (Rw.Words(0, 0, 0), Rw.WriterCalled)
    ensures Rw.Step(Rw.Words(0, 0, 0), Rw.WriterCalled, true) == (Rw.Words(1, 0, 0), Rw.WriterWaiting)
    ensures Rw.Step(Rw.Words(1, 0, 0), Rw.WriterWaiting, true) == (Rw.Words(1, 1, 0), Rw.WriterAdmitted)
    ensures Rw.Step(Rw.Words(1, 1, 0), Rw.WriterAdmitted, true) == (Rw.Words(0, 1, 0), Rw.WriterInside)
    ensures Rw.Step(Rw.Words(0, 1, 0), Rw.WriterInside, true) == (Rw.Words(0, 1, 0), Rw.WriterLeaving)
    ensures Rw.Step(Rw.Words(0, 1, 0), Rw.WriterLeaving, true) == (Rw.Words(0, 0, 0), Rw.Idle)
    ensures Rw.Step(Rw.Words(0, 0, readers), Rw.Idle, false) == (Rw.Words(0, 0, readers), Rw.ReaderWaiting)
    ensures Rw.Step(Rw.Words(0, 0, readers), Rw.ReaderWaiting, false)
         == (Rw.Words(0, 1, readers), Rw.ReaderAdmitted)
    ensures Rw.Step(Rw.Words(0, 1, readers), Rw.ReaderAdmitted, false)
         == (Rw.Words(0, 1, readers + 1), Rw.ReaderCounted)
    ensures Rw.Step(Rw.Words(0, 1, readers + 1), Rw.ReaderCounted, false)
         == (Rw.Words(0, 1, readers + 1), Rw.ReaderConfessing)
    ensures Rw.Step(Rw.Words(0, 1, readers + 1), Rw.ReaderConfessing, false)
         == (Rw.Words(0, 0, readers + 1), Rw.ReaderInside)
    ensures Rw.Step(Rw.Words(0, 0, readers + 1), Rw.ReaderInside, false) == (Rw.Words(0, 0, readers), Rw.Idle)
  {
  }

  /** The first step of an acquire on a lock that is free for the CPU. */
  lemma SoloCalls(s: State, i: nat, readers: Word, action: Action)
    requires FreeFor(s, i, readers) && (action == AcquireExclusive || action == AcquireShared)
    ensures
      var c := s.cpus[i].(interrupts := false, saved := [s.cpus[i].interrupts]);
      Step(s, Move(i, action))
      == With(s, i, Rw.Words(0, 0, readers), Rw.Idle, Nobody, 0,
              c.(pc := if action == AcquireExclusive then Testing else Entering(false)))
  {
    hide Rw.StepCpu;
    assert s.rw.pcs[i := Rw.Idle] == s.rw.pcs && s.cpus[i].saved + [s.cpus[i].interrupts] == [s.cpus[i].interrupts];
  }

  /** The last step of a release that empties the lock for the CPU. */
  lemma SoloReturns(s: State, i: nat, readers: Word)
    requires FreeFor(s, i, readers)
    ensures
      var c := s.cpus[i].(interrupts := false, saved := [s.cpus[i].interrupts]);
      Step(With(s, i, Rw.Words(0, 0, readers), Rw.Idle, Nobody, 0, c.(pc := Restoring)), Move(i, Release)) == s
  {
    hide Rw.StepCpu;
    assert s.rw.pcs[i := Rw.Idle] == s.rw.pcs && s.cpus[i := s.cpus[i]] == s.cpus;
  }

  /** The flags that j nested acquires of a CPU save: its own, and then that interrupts are off. */
  function Saved(interrupts: bool, j: nat): seq<bool> {
    if j == 0 then [] else [interrupts] + seq(j - 1, _ => false)
  }

  /** CPU i has taken the lock of s exclusively j times. */
  function HeldBySolo(s: State, i: nat, j: Byte, pc: Pc, pending: nat): State
    requires i < |s.cpus| == |s.rw.pcs|
  {
    var c := s.cpus[i];
    With(s, i, Rw.Words(0, 1, 0), Rw.WriterInside, HeldBy(i), j, Cpu(pc, false, Saved(c.interrupts, pending), c.home))
  }

  /** From the call to the compare-exchange that lets the writer in. */
  lemma SoloEnters(s: State, i: nat)
    requires FreeFor(s, i, 0)
    ensures
      var c := s.cpus[i].(interrupts := false, saved := [s.cpus[i].interrupts]);
      Repeat(s, Move(i, AcquireExclusive), 5)
      == With(s, i, Rw.Words(1, 1, 0), Rw.WriterAdmitted, Nobody, 0, c.(pc := Entering(true)))
  {
    hide Repeat;
    var m := Move(i, AcquireExclusive);
    var c := s.cpus[i].(interrupts := false, saved := [s.cpus[i].interrupts]);
    var enter := c.(pc := Entering(true));
    FiveSteps(s, m);
    SoloCalls(s, i, 0, AcquireExclusive);
    TestingStep(s, i, Rw.Words(0, 0, 0), Rw.Idle, Nobody, 0, c.(pc := Testing), m);
    hide Step;
    hide Rw.Step;
    InnerSteps(0);
    InnerAdvance(s, i, Rw.Words(0, 0, 0), Rw.Idle, Nobody, 0, enter, m);
    InnerAdvance(s, i, Rw.Words(0, 0, 0), Rw.WriterCalled, Nobody, 0, enter, m);
    InnerAdvance(s, i, Rw.Words(1, 0, 0), Rw.WriterWaiting, Nobody, 0, enter, m);
  }

  lemma TestingStep(s: State, i: nat, words: Rw.Words, inner: Rw.Pc, holder: Holder, depth: Byte, c: Cpu, m: Move)
    requires i < |s.cpus| == |s.rw.pcs| && m.cpu == i && c.pc == Testing
    ensures Step(With(s, i, words, inner, holder, depth, c), m)
         == With(s, i, words, inner, holder, depth,
                 c.(pc := if holder == HeldBy(i) then Deepening else Entering(true)))
  {
    hide Rw.StepCpu;
  }

  lemma FiveSteps(s: State, m: Move)
    requires |s.rw.pcs| == |s.cpus|
    ensures Repeat(s, m, 5) == Step(Step(Step(Step(Step(s, m), m), m), m), m)
  {
    hide Step;
    var s1 := Step(s, m);
    var s2 := Step(s1, m);
    var s3 := Step(s2, m);
    var s4 := Step(s3, m);
    RepeatOnce(s4, m);
    assert Repeat(s, m, 5) == Repeat(s1, m, 4) == Repeat(s2, m, 3) == Repeat(s3, m, 2) == Repeat(s4, m, 1);
  }

  /** And on to where it holds the lock. */
  lemma SoloTakes(s: State, i: nat)
    requires FreeFor(s, i, 0)
    ensures Repeat(s, Move(i, AcquireExclusive), 10) == HeldBySolo(s, i, 1, Held(true), 1)
  {
    hide Repeat;
    var m := Move(i, AcquireExclusive);
    var c := s.cpus[i].(interrupts := false, saved := [s.cpus[i].interrupts]);
    SoloEnters(s, i);
    RepeatSum(s, m, 5, 5);
    FiveSteps(Repeat(s, m, 5), m);
    InnerSteps(0);
    InnerAdvance(s, i, Rw.Words(1, 1, 0), Rw.WriterAdmitted, Nobody, 0, c.(pc := Entering(true)), m);
    CheckingSteps(s, i, Rw.Words(0, 1, 0), Rw.WriterInside, c, true, m);
    SettingSteps(s, i, Rw.Words(0, 1, 0), Rw.WriterInside, c, m);
    hide Step;
    hide Rw.Step;
    assert Saved(s.cpus[i].interrupts, 1) == [s.cpus[i].interrupts];
  }

  lemma CheckingSteps(s: State, i: nat, words: Rw.Words, inner: Rw.Pc, c: Cpu, exclusive: bool, m: Move)
    requires i < |s.cpus| == |s.rw.pcs| && m.cpu == i
    ensures
      Step(Step(With(s, i, words, inner, Nobody, 0, c.(pc := CheckingHolder(exclusive))), m), m)
      == With(s, i, words, inner, Nobody, 0, c.(pc := if exclusive then SettingDepth else Held(false)))
  {
    hide Rw.StepCpu;
    assert Step(With(s, i, words, inner, Nobody, 0, c.(pc := CheckingHolder(exclusive))), m)
        == With(s, i, words, inner, Nobody, 0, c.(pc := CheckingDepth(exclusive)));
  }

  lemma SettingSteps(s: State, i: nat, words: Rw.Words, inner: Rw.Pc, c: Cpu, m: Move)
    requires i < |s.cpus| == |s.rw.pcs| && m.cpu == i
    ensures Step(Step(With(s, i, words, inner, Nobody, 0, c.(pc := SettingDepth)), m), m)
         == With(s, i, words, inner, HeldBy(i), 1, c.(pc := Held(true)))
  {
    hide Rw.StepCpu;
    assert Step(With(s, i, words, inner, Nobody, 0, c.(pc := SettingDepth)), m)
        == With(s, i, words, inner, Nobody, 1, c.(pc := SettingHolder));
  }

  lemma ThreeSteps(s: State, m: Move)
    requires |s.rw.pcs| == |s.cpus|
    ensures Repeat(s, m, 3) == Step(Step(Step(s, m), m), m)
  {
    hide Step;
    var s1 := Step(s, m);
    var s2 := Step(s1, m);
    RepeatOnce(s2, m);
    assert Repeat(s, m, 3) == Repeat(s1, m, 2) == Repeat(s2, m, 1);
  }

  /** A nested acquire: one level deeper, or stopped at the maximum. */
  lemma SoloNests(s: State, i: nat, j: Byte)
    requires FreeFor(s, i, 0) && 1 <= j <= s.max
    ensures
      Repeat(HeldBySolo(s, i, j, Held(true), j), Move(i, AcquireExclusive), 3)
      == if j < s.max then HeldBySolo(s, i, j + 1, Held(true), j + 1) else HeldBySolo(s, i, j, TooDeep, j + 1)
  {
    hide Repeat;
    hide Rw.StepCpu;
    var m := Move(i, AcquireExclusive);
    var c := s.cpus[i].(interrupts := false, saved := Saved(s.cpus[i].interrupts, j + 1), pc := Testing);
    assert Saved(s.cpus[i].interrupts, j) + [false] == Saved(s.cpus[i].interrupts, j + 1);
    hide Saved;
    ThreeSteps(HeldBySolo(s, i, j, Held(true), j), m);
    assert Step(HeldBySolo(s, i, j, Held(true), j), m) == HeldBySolo(s, i, j, Testing, j + 1);
    TestingStep(s, i, Rw.Words(0, 1, 0), Rw.WriterInside, HeldBy(i), j, c, m);
    DeepeningStep(s, i, j);
    hide Step;
  }

  lemma DeepeningStep(s: State, i: nat, j: Byte)
    requires FreeFor(s, i, 0) && 1 <= j <= s.max
    ensures
      Step(HeldBySolo(s, i, j, Deepening, j + 1), Move(i, AcquireExclusive))
      == if j < s.max then HeldBySolo(s, i, j + 1, Held(true), j + 1) else HeldBySolo(s, i, j, TooDeep, j + 1)
  {
    hide Rw.StepCpu;
    hide Saved;
  }

  /** A nested release: one level less. */
  lemma SoloUnnests(s: State, i: nat, j: Byte)
    requires FreeFor(s, i, 0) && 1 < j
    ensures Repeat(HeldBySolo(s, i, j, Held(true), j), Move(i, Release), 4)
         == HeldBySolo(s, i, j - 1, Held(true), j - 1)
  {
    hide Repeat;
    hide Step;
    var m := Move(i, Release);
    var h := HeldBySolo(s, i, j, Held(true), j);
    var c := s.cpus[i].(interrupts := false, saved := Saved(s.cpus[i].interrupts, j));
    RepeatSum(h, m, 3, 1);
    ThreeSteps(h, m);
    ReleaseSteps(s, i, j, c);
    RepeatOnce(Repeat(h, m, 3), m);
    ReturnStep(s, i, j);
  }

  lemma ReturnStep(s: State, i: nat, j: Byte)
    requires i < |s.cpus| == |s.rw.pcs| && 1 < j
    ensures Step(HeldBySolo(s, i, j - 1, TestingDepth(true), j), Move(i, Release))
         == HeldBySolo(s, i, j - 1, Held(true), j - 1)
  {
    hide Rw.StepCpu;
    var saved := Saved(s.cpus[i].interrupts, j);
    assert saved != [] && saved[..|saved| - 1] == Saved(s.cpus[i].interrupts, j - 1);
    hide Saved;
  }

  /** The outermost release, up to where Holder is empty. */
  lemma SoloLetsGo(s: State, i: nat)
    requires FreeFor(s, i, 0)
    ensures
      var c := s.cpus[i].(interrupts := false, saved := [s.cpus[i].interrupts]);
      Repeat(HeldBySolo(s, i, 1, Held(true), 1), Move(i, Release), 5)
      == With(s, i, Rw.Words(0, 1, 0), Rw.WriterInside, Nobody, 0, c.(pc := Leaving(true)))
  {
    hide Repeat;
    hide Step;
    var m := Move(i, Release);
    var c := s.cpus[i].(interrupts := false, saved := [s.cpus[i].interrupts]);
    assert Saved(s.cpus[i].interrupts, 1) == [s.cpus[i].interrupts];
    FiveSteps(HeldBySolo(s, i, 1, Held(true), 1), m);
    ReleaseSteps(s, i, 1, c);
    ClearingSteps(s, i, Rw.Words(0, 1, 0), Rw.WriterInside, HeldBy(i), c, true, m);
  }

  /** A release of the holder, up to the test of the depth. */
  lemma ReleaseSteps(s: State, i: nat, j: Byte, c: Cpu)
    requires i < |s.cpus| == |s.rw.pcs| && 1 <= j && !c.interrupts
    ensures
      var m, words := Move(i, Release), Rw.Words(0, 1, 0);
      Step(Step(Step(With(s, i, words, Rw.WriterInside, HeldBy(i), j, c.(pc := Held(true))), m), m), m)
      == With(s, i, words, Rw.WriterInside, HeldBy(i), j - 1, c.(pc := TestingDepth(true)))
  {
    hide Rw.StepCpu;
    var m, words := Move(i, Release), Rw.Words(0, 1, 0);
    var h1 := With(s, i, words, Rw.WriterInside, HeldBy(i), j, c.(pc := CheckingOwner));
    assert Step(With(s, i, words, Rw.WriterInside, HeldBy(i), j, c.(pc := Held(true))), m) == h1;
    assert Step(h1, m) == With(s, i, words, Rw.WriterInside, HeldBy(i), j, c.(pc := Shallowing));
  }

  /** From the test of the depth to the inner release. */
  lemma ClearingSteps(s: State, i: nat, words: Rw.Words, inner: Rw.Pc, holder: Holder, c: Cpu, exclusive: bool, m: Move)
    requires i < |s.cpus| == |s.rw.pcs| && m.cpu == i
    ensures
      Step(Step(With(s, i, words, inner, holder, 0, c.(pc := TestingDepth(exclusive))), m), m)
      == With(s, i, words, inner, Nobody, 0, c.(pc := Leaving(exclusive)))
  {
    hide Rw.StepCpu;
    assert Step(With(s, i, words, inner, holder, 0, c.(pc := TestingDepth(exclusive))), m)
        == With(s, i, words, inner, holder, 0, c.(pc := ClearingHolder(exclusive)));
  }

  /** And on: all is as it was before the acquire. */
  lemma SoloLeaves(s: State, i: nat)
    requires FreeFor(s, i, 0)
    ensures Repeat(HeldBySolo(s, i, 1, Held(true), 1), Move(i, Release), 8) == s
  {
    hide Repeat;
    hide HeldBySolo;
    hide Step;
    hide Rw.Step;
    var m := Move(i, Release);
    var c := s.cpus[i].(interrupts := false, saved := [s.cpus[i].interrupts]);
    var h := HeldBySolo(s, i, 1, Held(true), 1);
    HeldSizes(s, i, 1);
    SoloLetsGo(s, i);
    RepeatSum(h, m, 5, 3);
    ThreeSteps(Repeat(h, m, 5), m);
    InnerSteps(0);
    InnerAdvance(s, i, Rw.Words(0, 1, 0), Rw.WriterInside, Nobody, 0, c.(pc := Leaving(true)), m);
    InnerAdvance(s, i, Rw.Words(0, 1, 0), Rw.WriterLeaving, Nobody, 0, c.(pc := Leaving(true)), m);
    SoloReturns(s, i, 0);
  }

  /**
   A CPU alone on a free lock: its first acquire takes 10 steps and every further one 3. After j of them, up
   to the maximum, it holds the lock at depth j; one more is stopped; and as many releases, of 4 steps each
   but for the last one with 8, leave the lock and the CPU as they were.
   */
  lemma {:induction false} SoloNesting(s: State, i: nat, j: Byte)
    requires FreeFor(s, i, 0) && 1 <= j <= s.max
    ensures Repeat(s, Move(i, AcquireExclusive), 7 + 3 * j) == HeldBySolo(s, i, j, Held(true), j)
    ensures Repeat(HeldBySolo(s, i, j, Held(true), j), Move(i, Release), 4 + 4 * j) == s
    ensures j == s.max ==> Repeat(s, Move(i, AcquireExclusive), 10 + 3 * j) == HeldBySolo(s, i, j, TooDeep, j + 1)
    decreases j
  {
    hide Repeat;
    hide HeldBySolo;
    hide FreeFor;
    var acquire, release := Move(i, AcquireExclusive), Move(i, Release);
    FreeSizes(s, i);
    if j == 1 {
      SoloTakes(s, i);
      SoloLeaves(s, i);
    } else {
      SoloNesting(s, i, j - 1);
      SoloNests(s, i, j - 1);
      RepeatSum(s, acquire, 4 + 3 * j, 3);
      SoloUnnests(s, i, j);
      HeldSizes(s, i, j);
      RepeatSum(HeldBySolo(s, i, j, Held(true), j), release, 4, 4 * j);
    }
    if j == s.max {
      RepeatSum(s, acquire, 7 + 3 * j, 3);
      SoloNests(s, i, j);
    }
  }

  lemma FreeSizes(s: State, i: nat)
    requires FreeFor(s, i, 0)
    ensures i < |s.rw.pcs| == |s.cpus|
  {
  }

  lemma HeldSizes(s: State, i: nat, j: Byte)
    requires i < |s.cpus| == |s.rw.pcs|
    ensures |HeldBySolo(s, i, j, Held(true), j).rw.pcs| == |HeldBySolo(s, i, j, Held(true), j).cpus|
  {
  }

  /** CPU i has taken the lock shared, beside so many other readers. */
  function SharedBySolo(s: State, i: nat, readers: Word): State
    requires i < |s.cpus| == |s.rw.pcs| && readers < WORD_VALUES - 1
  {
    var c := s.cpus[i];
    With(s, i, Rw.Words(0, 0, readers + 1), Rw.ReaderInside, Nobody, 0, Cpu(Held(false), false, [c.interrupts], c.home))
  }

  /** From the call to where the reader is no writer any more. */
  lemma SoloEntersShared(s: State, i: nat, readers: Word)
    requires FreeFor(s, i, readers) && readers < WORD_VALUES - 1
    ensures
      var c := s.cpus[i].(interrupts := false, saved := [s.cpus[i].interrupts]);
      Repeat(s, Move(i, AcquireShared), 5)
      == With(s, i, Rw.Words(0, 1, readers + 1), Rw.ReaderConfessing, Nobody, 0, c.(pc := Entering(false)))
  {
    hide Repeat;
    hide Step;
    hide Rw.Step;
    var m := Move(i, AcquireShared);
    var enter := s.cpus[i].(interrupts := false, saved := [s.cpus[i].interrupts], pc := Entering(false));
    FiveSteps(s, m);
    SoloCalls(s, i, readers, AcquireShared);
    InnerSteps(readers);
    InnerAdvance(s, i, Rw.Words(0, 0, readers), Rw.Idle, Nobody, 0, enter, m);
    InnerAdvance(s, i, Rw.Words(0, 0, readers), Rw.ReaderWaiting, Nobody, 0, enter, m);
    InnerAdvance(s, i, Rw.Words(0, 1, readers), Rw.ReaderAdmitted, Nobody, 0, enter, m);
    InnerAdvance(s, i, Rw.Words(0, 1, readers + 1), Rw.ReaderCounted, Nobody, 0, enter, m);
  }

  /** A CPU alone takes a lock that is free, or that only readers have, shared in 8 steps. */
  lemma SoloShares(s: State, i: nat, readers: Word)
    requires FreeFor(s, i, readers) && readers < WORD_VALUES - 1
    ensures Repeat(s, Move(i, AcquireShared), 8) == SharedBySolo(s, i, readers)
  {
    hide Repeat;
    hide Step;
    hide Rw.Step;
    var m := Move(i, AcquireShared);
    var c := s.cpus[i].(interrupts := false, saved := [s.cpus[i].interrupts]);
    SoloEntersShared(s, i, readers);
    RepeatSum(s, m, 5, 3);
    ThreeSteps(Repeat(s, m, 5), m);
    InnerSteps(readers);
    InnerAdvance(s, i, Rw.Words(0, 1, readers + 1), Rw.ReaderConfessing, Nobody, 0, c.(pc := Entering(false)), m);
    CheckingSteps(s, i, Rw.Words(0, 0, readers + 1), Rw.ReaderInside, c, false, m);
  }

  /** And gives it back in 5. */
  lemma SoloUnshares(s: State, i: nat, readers: Word)
    requires FreeFor(s, i, readers) && readers < WORD_VALUES - 1
    ensures Repeat(SharedBySolo(s, i, readers), Move(i, Release), 5) == s
  {
    hide Repeat;
    hide Step;
    hide Rw.Step;
    var m := Move(i, Release);
    var c := s.cpus[i].(interrupts := false, saved := [s.cpus[i].interrupts]);
    FiveSteps(SharedBySolo(s, i, readers), m);
    SharedReleaseStep(s, i, readers);
    ClearingSteps(s, i, Rw.Words(0, 0, readers + 1), Rw.ReaderInside, Nobody, c, false, m);
    InnerSteps(readers);
    InnerAdvance(s, i, Rw.Words(0, 0, readers + 1), Rw.ReaderInside, Nobody, 0, c.(pc := Leaving(false)), m);
    SoloReturns(s, i, readers);
  }

  lemma SharedReleaseStep(s: State, i: nat, readers: Word)
    requires i < |s.cpus| == |s.rw.pcs| && readers < WORD_VALUES - 1
    ensures
      var c := s.cpus[i].(interrupts := false, saved := [s.cpus[i].interrupts]);
      Step(SharedBySolo(s, i, readers), Move(i, Release))
      == With(s, i, Rw.Words(0, 0, readers + 1), Rw.ReaderInside, Nobody, 0, c.(pc := TestingDepth(false)))
  {
    hide Rw.StepCpu;
  }

  /** From a lock as RecRwSpinlockInit leaves it, where depth 0 stands for a maximum of 2. */
  lemma SoloRun(n: nat, recursivityDepth: Byte, interrupts: bool, i: nat, j: nat)
    requires i < n
    ensures
      var s := Init(n, recursivityDepth, interrupts);
      var maximum := if recursivityDepth == 0 then 2 else recursivityDepth;
      var taken := Exec(s, seq(7 + 3 * j, _ => Move(i, AcquireExclusive)));
      && (1 <= j <= maximum ==>
            && taken.cpus[i].pc == Held(true) && taken.depth == j && taken.holder == HeldBy(i)
            && Exec(taken, seq(4 + 4 * j, _ => Move(i, Release))) == s)
      && (j == maximum + 1 ==> taken.cpus[i].pc == TooDeep)
    ensures
      var s := Init(n, recursivityDepth, interrupts);
      var shared := Exec(s, seq(8, _ => Move(i, AcquireShared)));
      && shared.cpus[i].pc == Held(false) && shared.holder == Nobody
      && Exec(shared, seq(5, _ => Move(i, Release))) == s
  {
    hide Step;
    hide Exec;
    hide Repeat;
    var s := Init(n, recursivityDepth, interrupts);
    assert FreeFor(s, i, 0);
    RepeatIsExec(s, Move(i, AcquireShared), 8);
    SoloShares(s, i, 0);
    RepeatIsExec(SharedBySolo(s, i, 0), Move(i, Release), 5);
    SoloUnshares(s, i, 0);
    RepeatIsExec(s, Move(i, AcquireExclusive), 7 + 3 * j);
    if 1 <= j <= s.max {
      SoloNesting(s, i, j);
      RepeatIsExec(HeldBySolo(s, i, j, Held(true), j), Move(i, Release), 4 + 4 * j);
    } else if j == s.max + 1 {
      SoloNesting(s, i, j - 1);
    }
  }

  // ----- the lock in memory

  predicate InRelease(pc: Pc) {
    || pc.Held? || pc.CheckingOwner? || pc.Shallowing? || pc.TestingDepth? || pc.ClearingHolder?
    || pc.Leaving? || pc.Restoring?
  }

  /** The lock's fields and the CPUs that use it, updated in place. */
  class SharedLock {
    const RwSpinlock: Rw.SharedLock
    var CurrentRecursivityDepth: Byte
    const MaxRecursivityDepth: Byte
    var Holder: Holder
    var cpus: seq<Cpu>

    ghost predicate Valid()
      reads this, RwSpinlock
    {
      |RwSpinlock.pcs| == |cpus|
    }

    ghost function Abstract(): State
      reads this, RwSpinlock
    {
      State(RwSpinlock.Abstract(), Holder, CurrentRecursivityDepth, MaxRecursivityDepth, cpus)
    }

    constructor (n: nat, recursivityDepth: Byte, interrupts: bool)
      ensures Valid() && fresh(RwSpinlock)
      ensures Abstract() == Init(n, recursivityDepth, interrupts)
    {
      RwSpinlock := new Rw.SharedLock(n);
      CurrentRecursivityDepth := 0;
      MaxRecursivityDepth := if recursivityDepth == 0 then DEFAULT_DEPTH_MAX else recursivityDepth;
      Holder := Nobody;
      cpus := seq(n, _ => Cpu(Idle, interrupts, [], interrupts));
    }

    /** One step of RecRwSpinlockAcquire on one CPU. */
    method AdvanceAcquire(cpu: nat, action: Action)
      requires Valid() && cpu < |cpus| && !InRelease(cpus[cpu].pc)
      modifies this, RwSpinlock
      ensures Valid()
      ensures Abstract() == Step(old(Abstract()), Move(cpu, action))
    {
      var c := cpus[cpu];
      match c.pc {
        case Idle =>
          match action {
            case AcquireShared =>
              c := c.(saved := c.saved + [c.interrupts], interrupts := false, pc := Entering(false));
            case AcquireExclusive =>
              c := c.(saved := c.saved + [c.interrupts], interrupts := false, pc := Testing);
            case Release =>
            case ToggleInterrupts =>
              c := c.(interrupts := !c.interrupts, home := !c.interrupts);
          }
        case Testing =>
          c := c.(pc := if Holder == HeldBy(cpu) then Deepening else Entering(true));
        case Deepening =>
          if CurrentRecursivityDepth < MaxRecursivityDepth {
            CurrentRecursivityDepth := CurrentRecursivityDepth + 1;
            c := c.(pc := Held(true));
          } else {
            c := c.(pc := TooDeep);
          }
        case Entering(exclusive) =>
          RwSpinlock.Advance(cpu, exclusive);
          var inner := RwSpinlock.pcs[cpu];
          if inner == Rw.WriterInside || inner == Rw.ReaderInside {
            c := c.(pc := CheckingHolder(exclusive));
          } else if inner == Rw.Stopped {
            c := c.(pc := Stopped);
          }
        case CheckingHolder(exclusive) =>
          c := c.(pc := if Holder == Nobody then CheckingDepth(exclusive) else Stopped);
        case CheckingDepth(exclusive) =>
          c := c.(pc := if CurrentRecursivityDepth != 0 then Stopped
                        else if exclusive then SettingDepth else Held(false));
        case SettingDepth =>
          CurrentRecursivityDepth := 1;
          c := c.(pc := SettingHolder);
        case SettingHolder =>
          Holder := HeldBy(cpu);
          c := c.(pc := Held(true));
        case _ =>
      }
      cpus := cpus[cpu := c];
    }

    /** One step of RecRwSpinlockRelease on one CPU; a CPU that holds the lock may also re-acquire it. */
    method AdvanceRelease(cpu: nat, action: Action)
      requires Valid() && cpu < |cpus| && InRelease(cpus[cpu].pc)
      modifies this, RwSpinlock
      ensures Valid()
      ensures Abstract() == Step(old(Abstract()), Move(cpu, action))
    {
      var c := cpus[cpu];
      match c.pc {
        case Held(exclusive) =>
          if action == Release {
            c := c.(pc := if c.interrupts then Interruptible(exclusive)
                          else if exclusive then CheckingOwner else TestingDepth(false));
          } else if action == ToggleInterrupts {
            c := c.(interrupts := !c.interrupts);
          } else if action == AcquireExclusive && exclusive {
            c := c.(saved := c.saved + [c.interrupts], interrupts := false, pc := Testing);
          }
        case CheckingOwner =>
          c := c.(pc := if Holder == HeldBy(cpu) then Shallowing else Stopped);
        case Shallowing =>
          CurrentRecursivityDepth := if CurrentRecursivityDepth == 0 then 0xFF else CurrentRecursivityDepth - 1;
          c := c.(pc := TestingDepth(true));
        case TestingDepth(exclusive) =>
          if CurrentRecursivityDepth == 0 || !exclusive {
            c := c.(pc := ClearingHolder(exclusive));
          } else {
            c := c.(pc := Held(true), saved := if c.saved == [] then [] else c.saved[..|c.saved| - 1]);
          }
        case ClearingHolder(exclusive) =>
          Holder := Nobody;
          c := c.(pc := Leaving(exclusive));
        case Leaving(exclusive) =>
          RwSpinlock.Advance(cpu, exclusive);
          var inner := RwSpinlock.pcs[cpu];
          if inner == Rw.Idle {
            c := c.(pc := Restoring);
          } else if inner == Rw.Stopped {
            c := c.(pc := Stopped);
          }
        case Restoring =>
          if c.saved != [] {
            var last := |c.saved| - 1;
            c := c.(pc := Idle, interrupts := c.saved[last], saved := c.saved[..last]);
          }
        case _ =>
      }
      cpus := cpus[cpu := c];
    }
  }
}
