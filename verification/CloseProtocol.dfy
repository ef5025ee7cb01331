/**
 The close protocol of the asynchronous iterators, as a transition system.

 Any number of tasks read (`__anext__`, `run`) and close (`aclose`, a dropped `run`) one
 stream. They share a flag, a lock around the slot that holds the stream, and a wake-up that
 reaches every task registered for it at that moment. Each program counter below is a point
 where another task may run; setting the flag and waking are two steps.
 */
module CloseProtocol {
  import opened Wrappers

  datatype Pc =
    // __anext__
    | NextCheck
    | NextLock
    | NextRegister
    | NextRecheck(woken: bool)
    | NextRead(woken: bool)
    // run
    | RunStart
    | RunLock
    | RunRegister
    | RunRecheck(woken: bool)
    | RunRead(woken: bool)
    | RunSetFlag
    | RunTake
    | RunClosing
    | RunDisarm
    // a run dropped at an await: its guard
    | DropSetFlag
    | DropWake
    | DropSpawn
    // the task that guard spawns
    | SpawnLock
    | SpawnTake
    | SpawnClosing
    // aclose
    | CloseSetFlag
    | CloseWake
    | CloseLock
    | CloseTake
    | CloseClosing
    | Done

  /** `present`: the stream is in its slot. `abandoned`: an `aclose` was itself cancelled
      while it waited for the lock. */
  datatype State = State(
    closed: bool, holder: Option<nat>, present: bool, tasks: seq<Pc>, abandoned: bool)

  const INITIAL: State := State(false, None, true, [], false)

  // ---------- What a program counter says ----------

  predicate Waiting(pc: Pc) {
    pc.NextLock? || pc.RunLock? || pc.SpawnLock? || pc.CloseLock?
  }

  predicate Reading(pc: Pc) {
    pc.NextRead? || pc.RunRead?
  }

  predicate HoldsLock(pc: Pc) {
    || pc.NextRegister? || pc.NextRecheck? || pc.NextRead?
    || pc.RunRegister? || pc.RunRecheck? || pc.RunRead?
    || pc.RunSetFlag? || pc.RunTake? || pc.RunClosing? || pc.RunDisarm?
    || pc.SpawnTake? || pc.SpawnClosing? || pc.CloseTake? || pc.CloseClosing?
  }

  predicate AboutToWake(pc: Pc) {
    pc.CloseWake? || pc.DropWake?
  }

  /** Will take the stream out of its slot unless cancelled. */
  predicate Responsible(pc: Pc) {
    || pc.RunTake? || pc.DropWake? || pc.DropSpawn? || pc.SpawnLock? || pc.SpawnTake?
    || pc.CloseWake? || pc.CloseLock? || pc.CloseTake?
  }

  /** The task, or the run whose guard it is, has set the flag. */
  predicate HasSetFlag(pc: Pc) {
    Responsible(pc) || pc.RunClosing? || pc.RunDisarm? || pc.SpawnClosing? || pc.CloseClosing?
  }

  predicate Closing(pc: Pc) {
    pc.RunClosing? || pc.SpawnClosing? || pc.CloseClosing?
  }

  function Woken(pc: Pc): Pc {
    match pc
    case NextRecheck(_) => NextRecheck(true)
    case NextRead(_) => NextRead(true)
    case RunRecheck(_) => RunRecheck(true)
    case RunRead(_) => RunRead(true)
    case _ => pc
  }

  // ---------- What can happen ----------

  datatype Item = Notification | Failure | EndOfStream

  datatype Step =
    | Arrive(start: Pc)
    | Advance(task: nat)
    | Yield(task: nat, item: Item)
    | Cancel(task: nat)

  /** The task's next step needs nothing from outside: not the stream, not the caller. */
  predicate CanAdvance(s: State, t: nat) {
    && t < |s.tasks|
    && var pc := s.tasks[t];
       && !pc.Done?
       && (Waiting(pc) ==> s.holder.None?)
       && (Reading(pc) ==> pc.woken)
  }

  predicate Enabled(s: State, step: Step) {
    match step
    case Arrive(start) => start.NextCheck? || start.RunStart? || start.CloseSetFlag?
    case Advance(t) => CanAdvance(s, t)
    // The wake-up may come between the two polls of one `select!`, so even a woken reader
    // may still be handed an item.
    case Yield(t, _) => t < |s.tasks| && Reading(s.tasks[t])
    // A future is dropped only where it awaits, or before it first runs.
    case Cancel(t) =>
      t < |s.tasks| &&
      var pc := s.tasks[t];
      || pc.NextCheck? || pc.NextLock? || pc.NextRead? || pc.RunStart? || pc.RunLock? || pc.RunRead?
      || pc.RunClosing? || pc.CloseSetFlag? || pc.CloseLock? || pc.CloseClosing?
  }

  // ---------- One task's move ----------

  datatype LockMove = Keep | Acquire | Release

  datatype Effect = Nothing | SetFlag | WakeEveryone | SpawnCloser | TakeStream | Abandon

  datatype Move = Move(next: Pc, lock: LockMove, effect: Effect)

  function AdvanceMove(pc: Pc, closed: bool, present: bool): Move {
    match pc
    case NextCheck => Move(if closed then Done else NextLock, Keep, Nothing)
    case NextLock => Move(NextRegister, Acquire, Nothing)
    case NextRegister => Move(NextRecheck(false), Keep, Nothing)
    case NextRecheck(woken) =>
      if closed || !present then Move(Done, Release, Nothing) else Move(NextRead(woken), Keep, Nothing)
    case NextRead(_) => Move(Done, Release, Nothing)
    case RunStart => Move(RunLock, Keep, Nothing)
    case RunLock => Move(RunRegister, Acquire, Nothing)
    case RunRegister => Move(RunRecheck(false), Keep, Nothing)
    case RunRecheck(woken) =>
      Move(if closed || !present then RunSetFlag else RunRead(woken), Keep, Nothing)
    case RunRead(_) => Move(RunSetFlag, Keep, Nothing)
    case RunSetFlag => Move(RunTake, Keep, SetFlag)
    case RunTake => if present then Move(RunClosing, Keep, TakeStream) else Move(RunDisarm, Keep, Nothing)
    case RunClosing => Move(RunDisarm, Keep, Nothing)
    case RunDisarm => Move(Done, Release, Nothing)
    case DropSetFlag => Move(DropWake, Keep, SetFlag)
    case DropWake => Move(DropSpawn, Keep, WakeEveryone)
    case DropSpawn => Move(Done, Keep, SpawnCloser)
    case SpawnLock => Move(SpawnTake, Acquire, Nothing)
    case SpawnTake => if present then Move(SpawnClosing, Keep, TakeStream) else Move(Done, Release, Nothing)
    case SpawnClosing => Move(Done, Release, Nothing)
    case CloseSetFlag => Move(CloseWake, Keep, SetFlag)
    case CloseWake => Move(CloseLock, Keep, WakeEveryone)
    case CloseLock => Move(CloseTake, Acquire, Nothing)
    case CloseTake => if present then Move(CloseClosing, Keep, TakeStream) else Move(Done, Release, Nothing)
    case CloseClosing => Move(Done, Release, Nothing)
    case Done => Move(Done, Keep, Nothing)
  }

  /** A reader that was handed an item: `__anext__` returns it, `run` reads on unless the
      stream failed or ended. */
  function YieldMove(pc: Pc, item: Item): Move {
    if pc.NextRead? then Move(Done, Release, Nothing)
    else if item.Notification? then Move(RunRegister, Keep, Nothing)
    else Move(RunSetFlag, Keep, Nothing)
  }

  /** Dropping a future lets go of the lock; a `run` that had started leaves its guard to act. */
  function CancelMove(pc: Pc): Move {
    match pc
    case NextRead(_) => Move(Done, Release, Nothing)
    case RunLock => Move(DropSetFlag, Keep, Nothing)
    case RunRead(_) => Move(DropSetFlag, Release, Nothing)
    case RunClosing => Move(DropSetFlag, Release, Nothing)
    case CloseLock => Move(Done, Keep, Abandon)
    case CloseClosing => Move(Done, Release, Nothing)
    case _ => Move(Done, Keep, Nothing)
  }

  function WakeAll(tasks: seq<Pc>): seq<Pc> {
    seq(|tasks|, i requires 0 <= i < |tasks| => Woken(tasks[i]))
  }

  function Apply(s: State, t: nat, m: Move): State
    requires t < |s.tasks|
  {
    var others := if m.effect.WakeEveryone? then WakeAll(s.tasks) else s.tasks;
    State(
      s.closed || m.effect.SetFlag?,
      match m.lock { case Keep => s.holder case Acquire => Some(t) case Release => None },
      s.present && !m.effect.TakeStream?,
      others[t := m.next] + if m.effect.SpawnCloser? then [SpawnLock] else [],
      s.abandoned || m.effect.Abandon?)
  }

  function MoveOf(s: State, step: Step): Move
    requires Enabled(s, step) && !step.Arrive?
  {
    match step
    case Advance(t) => AdvanceMove(s.tasks[t], s.closed, s.present)
    case Yield(t, item) => YieldMove(s.tasks[t], item)
    case Cancel(t) => CancelMove(s.tasks[t])
  }

  function Do(s: State, step: Step): State
    requires Enabled(s, step)
  {
    if step.Arrive? then s.(tasks := s.tasks + [step.start]) else Apply(s, step.task, MoveOf(s, step))
  }

  // ---------- The invariant ----------

  ghost predicate MutuallyExclusive(s: State) {
    && (s.holder.Some? ==> s.holder.value < |s.tasks| && HoldsLock(s.tasks[s.holder.value]))
    && forall t :: 0 <= t < |s.tasks| && HoldsLock(s.tasks[t]) ==> s.holder == Some(t)
  }

  ghost predicate SomeTask(tasks: seq<Pc>, p: Pc -> bool) {
    exists t :: 0 <= t < |tasks| && p(tasks[t])
  }

  /** A reader that waits on the stream although the flag is set is woken already, or a task
      that set the flag is still about to wake it. */
  ghost predicate NoLostWakeUp(s: State) {
    s.closed ==>
      forall t :: 0 <= t < |s.tasks| && Reading(s.tasks[t]) ==>
        s.tasks[t].woken || SomeTask(s.tasks, AboutToWake)
  }

  ghost predicate FlagIsSet(s: State) {
    forall t :: 0 <= t < |s.tasks| && HasSetFlag(s.tasks[t]) ==> s.closed
  }

  /** Once the flag is set the stream is out of its slot, or some task is on its way to it. */
  ghost predicate WillBeTaken(s: State) {
    && (s.closed && s.present && !s.abandoned ==> SomeTask(s.tasks, Responsible))
    && forall t :: 0 <= t < |s.tasks| && Closing(s.tasks[t]) ==> !s.present
  }

  ghost predicate Inv(s: State) {
    MutuallyExclusive(s) && NoLostWakeUp(s) && FlagIsSet(s) && WillBeTaken(s)
  }

  // ---------- What every move observes ----------

  /** The lock is held exactly where the program counter says; only a waiting task gets it. */
  predicate KeepsDiscipline(pc: Pc, m: Move) {
    && (m.lock.Acquire? ==> Waiting(pc))
    && (m.lock.Release? ==> HoldsLock(pc))
    && (HoldsLock(m.next) <==> m.lock.Acquire? || (m.lock.Keep? && HoldsLock(pc)))
  }

  /** Nobody starts to read once the flag is set; whoever sets it wakes the readers next, or
      holds the lock and so shuts them out; whoever is to wake them does so next. */
  predicate KeepsWakeUps(pc: Pc, closed: bool, m: Move) {
    && (Reading(m.next) ==> !closed && m.effect.Nothing?)
    && (m.effect.SetFlag? ==> AboutToWake(m.next) || HoldsLock(pc))
    && (AboutToWake(pc) ==> m.effect.WakeEveryone?)
  }

  /** Whoever sets the flag is to take the stream, and stays so until it is taken. */
  predicate KeepsPromise(pc: Pc, present: bool, m: Move) {
    && (HasSetFlag(m.next) || m.effect.SpawnCloser? ==> HasSetFlag(pc) || m.effect.SetFlag?)
    && (m.effect.SetFlag? ==> Responsible(m.next))
    && (Responsible(pc) ==>
          Responsible(m.next) || !present || m.effect.TakeStream? || m.effect.SpawnCloser? || m.effect.Abandon?)
    && (Closing(m.next) ==> m.effect.TakeStream? || !present)
  }

  lemma MovesKeepDiscipline(s: State, step: Step)
    requires Enabled(s, step) && !step.Arrive?
    ensures KeepsDiscipline(s.tasks[step.task], MoveOf(s, step))
    ensures MoveOf(s, step).lock.Acquire? ==> s.holder.None?
  {
  }

  lemma MovesKeepWakeUps(s: State, step: Step)
    requires Enabled(s, step) && !step.Arrive?
    ensures KeepsWakeUps(s.tasks[step.task], s.closed, MoveOf(s, step))
  {
  }

  lemma MovesKeepPromise(s: State, step: Step)
    requires Enabled(s, step) && !step.Arrive?
    ensures KeepsPromise(s.tasks[step.task], s.present, MoveOf(s, step))
  {
  }

  /** Waking changes no program counter but for the wake-up itself. */
  lemma WakingOnlyWakes(pc: Pc)
    ensures HoldsLock(Woken(pc)) == HoldsLock(pc) && Reading(Woken(pc)) == Reading(pc)
    ensures AboutToWake(Woken(pc)) == AboutToWake(pc) && Responsible(Woken(pc)) == Responsible(pc)
    ensures HasSetFlag(Woken(pc)) == HasSetFlag(pc) && Closing(Woken(pc)) == Closing(pc)
    ensures Reading(pc) ==> Woken(pc).woken
  {
  }

  // ---------- Every step keeps the invariant ----------

  /** Every other task is where it was, at most woken. */
  lemma OthersStay(s: State, t: nat, m: Move)
    requires t < |s.tasks|
    ensures var s' := Apply(s, t, m);
            && |s'.tasks| == |s.tasks| + (if m.effect.SpawnCloser? then 1 else 0) && s'.tasks[t] == m.next
            && (m.effect.SpawnCloser? ==> s'.tasks[|s.tasks|] == SpawnLock)
            && forall i :: 0 <= i < |s.tasks| && i != t ==>
                 s'.tasks[i] == if m.effect.WakeEveryone? then Woken(s.tasks[i]) else s.tasks[i]
  {
  }

  lemma StepKeepsMutex(s: State, step: Step)
    requires MutuallyExclusive(s) && Enabled(s, step)
    ensures MutuallyExclusive(Do(s, step))
  {
    hide MoveOf, HoldsLock, Woken;
    if step.Arrive? {
      NewcomersAreIdle(step.start);
    } else {
      MovesKeepDiscipline(s, step);
      MutexAfterMove(s, step.task, MoveOf(s, step));
    }
  }

  lemma NewcomersAreIdle(pc: Pc)
    requires pc.NextCheck? || pc.RunStart? || pc.CloseSetFlag?
    ensures !HoldsLock(pc) && !Reading(pc) && !HasSetFlag(pc) && !Closing(pc)
  {
  }

  lemma MutexAfterMove(s: State, t: nat, m: Move)
    requires MutuallyExclusive(s) && t < |s.tasks| && KeepsDiscipline(s.tasks[t], m)
    requires m.lock.Acquire? ==> s.holder.None?
    ensures MutuallyExclusive(Apply(s, t, m))
  {
    hide HoldsLock, Woken, Apply;
    OthersStay(s, t, m);
    ApplyMovesLock(s, t, m);
    forall i | 0 <= i < |s.tasks| ensures HoldsLock(Woken(s.tasks[i])) == HoldsLock(s.tasks[i]) {
      WakingOnlyWakes(s.tasks[i]);
    }
    SpawnedIsIdle();
  }

  lemma SpawnedIsIdle()
    ensures !HoldsLock(SpawnLock) && !Reading(SpawnLock) && !Closing(SpawnLock) && Responsible(SpawnLock)
  {
  }

  lemma ApplyMovesLock(s: State, t: nat, m: Move)
    requires t < |s.tasks|
    ensures Apply(s, t, m).holder
            == match m.lock { case Keep => s.holder case Acquire => Some(t) case Release => None }
    ensures Apply(s, t, m).closed == (s.closed || m.effect.SetFlag?)
    ensures Apply(s, t, m).present == (s.present && !m.effect.TakeStream?)
    ensures Apply(s, t, m).abandoned == (s.abandoned || m.effect.Abandon?)
  {
  }

  lemma StepKeepsFlag(s: State, step: Step)
    requires FlagIsSet(s) && Enabled(s, step)
    ensures FlagIsSet(Do(s, step))
  {
    hide MoveOf, HasSetFlag, Woken, HoldsLock;
    if step.Arrive? {
      NewcomersAreIdle(step.start);
    } else {
      MovesKeepPromise(s, step);
      forall i | 0 <= i < |s.tasks| ensures HasSetFlag(Woken(s.tasks[i])) == HasSetFlag(s.tasks[i]) {
        WakingOnlyWakes(s.tasks[i]);
      }
    }
  }

  lemma StepKeepsWakeUp(s: State, step: Step)
    requires MutuallyExclusive(s) && NoLostWakeUp(s) && Enabled(s, step)
    ensures NoLostWakeUp(Do(s, step))
  {
    hide MoveOf, HoldsLock, Woken, Reading, AboutToWake;
    if step.Arrive? {
      NewcomersAreIdle(step.start);
      PendingWakeUpStays(s.tasks, s.tasks + [step.start], |s.tasks|);
    } else {
      MovesKeepWakeUps(s, step);
      WakeUpAfterMove(s, step.task, MoveOf(s, step));
    }
  }

  /** A pending wake-up of some other task is still pending. */
  lemma PendingWakeUpStays(before: seq<Pc>, after: seq<Pc>, t: nat)
    requires |before| <= |after| && forall i :: 0 <= i < |before| && i != t ==> after[i] == before[i]
    requires t < |before| ==> !AboutToWake(before[t])
    ensures SomeTask(before, AboutToWake) ==> SomeTask(after, AboutToWake)
  {
    if u :| 0 <= u < |before| && AboutToWake(before[u]) {
      assert AboutToWake(after[u]);
    }
  }

  lemma WakeUpAfterMove(s: State, t: nat, m: Move)
    requires MutuallyExclusive(s) && NoLostWakeUp(s) && t < |s.tasks| && KeepsWakeUps(s.tasks[t], s.closed, m)
    ensures NoLostWakeUp(Apply(s, t, m))
  {
    hide HoldsLock, Woken, AboutToWake, Apply;
    var s' := Apply(s, t, m);
    OthersStay(s, t, m);
    ApplyMovesLock(s, t, m);
    SpawnedIsIdle();
    if s'.closed {
      forall r | 0 <= r < |s'.tasks| && Reading(s'.tasks[r])
        ensures s'.tasks[r].woken || SomeTask(s'.tasks, AboutToWake)
      {
        WakingOnlyWakes(s.tasks[r]);
        if !m.effect.WakeEveryone? {
          if s.closed {
            PendingWakeUpStays(s.tasks, s'.tasks, t);
          } else {
            // The flag is being set. `run` does so without waking anyone, under the lock:
            // then nobody else can be reading.
            ReadersHoldLock(s.tasks[r]);
            assert AboutToWake(s'.tasks[t]);
          }
        }
      }
    }
  }

  lemma ReadersHoldLock(pc: Pc)
    requires Reading(pc)
    ensures HoldsLock(pc)
  {
  }

  lemma StepKeepsTaken(s: State, step: Step)
    requires WillBeTaken(s) && Enabled(s, step)
    ensures WillBeTaken(Do(s, step))
  {
    hide MoveOf, HoldsLock, Woken, Closing, Responsible;
    if step.Arrive? {
      NewcomersAreIdle(step.start);
      if u :| 0 <= u < |s.tasks| && Responsible(s.tasks[u]) {
        assert Responsible((s.tasks + [step.start])[u]);
      }
    } else {
      MovesKeepPromise(s, step);
      TakenAfterMove(s, step.task, MoveOf(s, step));
    }
  }

  lemma TakenAfterMove(s: State, t: nat, m: Move)
    requires WillBeTaken(s) && t < |s.tasks| && KeepsPromise(s.tasks[t], s.present, m)
    ensures WillBeTaken(Apply(s, t, m))
  {
    hide Woken, Closing, Responsible, HasSetFlag, Apply;
    var s' := Apply(s, t, m);
    OthersStay(s, t, m);
    ApplyMovesLock(s, t, m);
    SpawnedIsIdle();
    forall i | 0 <= i < |s.tasks|
      ensures Responsible(Woken(s.tasks[i])) == Responsible(s.tasks[i])
      ensures Closing(Woken(s.tasks[i])) == Closing(s.tasks[i])
    {
      WakingOnlyWakes(s.tasks[i]);
    }
    if s'.closed && s'.present && !s'.abandoned {
      if m.effect.SetFlag? {
        assert Responsible(s'.tasks[t]);
      } else {
        PromiseAfterMove(s, t, m);
      }
    }
  }

  /** Some task is bound to take the stream until it is taken, unless one gives up. */
  lemma PromiseAfterMove(s: State, t: nat, m: Move)
    requires t < |s.tasks| && KeepsPromise(s.tasks[t], s.present, m) && !m.effect.Abandon?
    requires SomeTask(s.tasks, Responsible)
    ensures Apply(s, t, m).present ==> SomeTask(Apply(s, t, m).tasks, Responsible)
  {
    hide Woken, Closing, Responsible, HasSetFlag, Apply;
    var s' := Apply(s, t, m);
    OthersStay(s, t, m);
    ApplyMovesLock(s, t, m);
    SpawnedIsIdle();
    if s'.present {
      var u :| 0 <= u < |s.tasks| && Responsible(s.tasks[u]);
      WakingOnlyWakes(s.tasks[u]);
      if u != t || !m.effect.SpawnCloser? {
        assert Responsible(s'.tasks[u]);
      } else {
        assert Responsible(s'.tasks[|s.tasks|]);
      }
    }
  }

  lemma StepKeepsInv(s: State, step: Step)
    requires Inv(s) && Enabled(s, step)
    ensures Inv(Do(s, step))
  {
    hide Do, Enabled, MutuallyExclusive, NoLostWakeUp, FlagIsSet, WillBeTaken;
    StepKeepsMutex(s, step);
    StepKeepsWakeUp(s, step);
    StepKeepsFlag(s, step);
    StepKeepsTaken(s, step);
  }

  // ---------- Whole runs ----------

  /** Each step leads from one state to the next. */
  ghost predicate IsSchedule(states: seq<State>, steps: seq<Step>) {
    && |states| == |steps| + 1
    && forall i :: 0 <= i < |steps| ==> Enabled(states[i], steps[i]) && states[i + 1] == Do(states[i], steps[i])
  }

  /** A schedule that starts fresh. */
  ghost predicate IsRun(states: seq<State>, steps: seq<Step>) {
    IsSchedule(states, steps) && states[0] == INITIAL
  }

  /** Every state of every run, of any number of tasks, keeps the invariant. */
  lemma {:induction false} RunsKeepInv(states: seq<State>, steps: seq<Step>, i: nat)
    requires IsRun(states, steps) && i < |states|
    ensures Inv(states[i])
    decreases i
  {
    if i > 0 {
      RunsKeepInv(states, steps, i - 1);
      StepKeepsInv(states[i - 1], steps[i - 1]);
    }
  }

  /** What that means for a closer that waits behind a reader: the reader has its wake-up, or
      a task that can move this very moment is about to send it. */
  lemma NoCloserWaitsForever(states: seq<State>, steps: seq<Step>, i: nat, closer: nat, reader: nat)
    requires IsRun(states, steps) && i < |states|
    requires closer < |states[i].tasks| && reader < |states[i].tasks|
    requires states[i].tasks[closer].CloseLock? || states[i].tasks[closer].SpawnLock?
    requires Reading(states[i].tasks[reader])
    ensures var s := states[i];
            && s.holder == Some(reader)
            && (CanAdvance(s, reader)
                || exists u :: 0 <= u < |s.tasks| && AboutToWake(s.tasks[u]) && CanAdvance(s, u))
  {
    RunsKeepInv(states, steps, i);
    var s := states[i];
    ReadersHoldLock(s.tasks[reader]);
    assert HasSetFlag(s.tasks[closer]);
    if !s.tasks[reader].woken {
      var u :| 0 <= u < |s.tasks| && AboutToWake(s.tasks[u]);
      assert CanAdvance(s, u);
    }
  }

  /** `run` sets the flag and wakes nobody. That is safe because no task is reading then. */
  lemma NobodyReadsWhileRunSetsFlag(states: seq<State>, steps: seq<Step>, i: nat, t: nat, r: nat)
    requires IsRun(states, steps) && i < |states| && t < |states[i].tasks| && r < |states[i].tasks|
    requires states[i].tasks[t].RunSetFlag?
    ensures !Reading(states[i].tasks[r])
  {
    RunsKeepInv(states, steps, i);
    assert HoldsLock(states[i].tasks[t]);
    if Reading(states[i].tasks[r]) {
      ReadersHoldLock(states[i].tasks[r]);
    }
  }

  // ---------- After the close ----------

  predicate Delivers(s: State, step: Step) {
    s.closed && step.Yield? && step.item.Notification?
  }

  ghost function LateDeliveries(states: seq<State>, steps: seq<Step>): nat
    requires |states| == |steps| + 1
    decreases |steps|
  {
    if steps == [] then 0
    else
      var n := |steps| - 1;
      LateDeliveries(states[..n + 1], steps[..n]) + if Delivers(states[n], steps[n]) then 1 else 0
  }

  lemma SchedulePrefix(states: seq<State>, steps: seq<Step>, n: nat)
    requires IsSchedule(states, steps) && n <= |steps|
    ensures IsSchedule(states[..n + 1], steps[..n]) && states[..n + 1][0] == states[0]
  {
    hide Do, Enabled;
  }

  ghost predicate NobodyReads(s: State) {
    forall t :: 0 <= t < |s.tasks| ==> !Reading(s.tasks[t])
  }

  /** Once the flag is set a step starts no reader, and a delivery ends the last one. */
  lemma ClosedReadersOnlyLeave(s: State, step: Step)
    requires Inv(s) && s.closed && Enabled(s, step)
    requires NobodyReads(s) || step.Yield?
    ensures NobodyReads(Do(s, step))
  {
    hide MoveOf, Woken, HoldsLock, MutuallyExclusive, NoLostWakeUp, FlagIsSet, WillBeTaken;
    if !step.Arrive? {
      var m := MoveOf(s, step);
      MovesKeepWakeUps(s, step);
      OthersStay(s, step.task, m);
      forall i | 0 <= i < |s.tasks| ensures Reading(Woken(s.tasks[i])) == Reading(s.tasks[i]) {
        WakingOnlyWakes(s.tasks[i]);
      }
      if step.Yield? {
        OnlyReader(s, step.task);
      }
    }
  }

  lemma OnlyReader(s: State, t: nat)
    requires MutuallyExclusive(s) && t < |s.tasks| && Reading(s.tasks[t])
    ensures forall i :: 0 <= i < |s.tasks| && i != t ==> !Reading(s.tasks[i])
  {
    ReadersHoldLock(s.tasks[t]);
    forall i | 0 <= i < |s.tasks| && i != t ensures !Reading(s.tasks[i]) {
      if Reading(s.tasks[i]) {
        ReadersHoldLock(s.tasks[i]);
      }
    }
  }

  lemma FlagStaysSet(s: State, step: Step)
    requires Enabled(s, step)
    ensures s.closed ==> Do(s, step).closed
  {
    hide MoveOf;
  }

  /** At most one notification is delivered after the flag is first set. */
  lemma {:induction false} AtMostOneLateDelivery(states: seq<State>, steps: seq<Step>)
    requires IsRun(states, steps)
    ensures LateDeliveries(states, steps) <= 1
    ensures LateDeliveries(states, steps) == 1 ==> states[|steps|].closed && NobodyReads(states[|steps|])
    decreases |steps|
  {
    hide Do, Enabled, Inv, NobodyReads;
    if steps != [] {
      var n := |steps| - 1;
      var s, step := states[n], steps[n];
      SchedulePrefix(states, steps, n);
      AtMostOneLateDelivery(states[..n + 1], steps[..n]);
      RunsKeepInv(states, steps, n);
      FlagStaysSet(s, step);
      if s.closed && (NobodyReads(s) || step.Yield?) {
        ClosedReadersOnlyLeave(s, step);
      }
      if Delivers(s, step) {
        YieldNeedsReader(s, step);
      }
    }
  }

  lemma YieldNeedsReader(s: State, step: Step)
    requires Enabled(s, step) && step.Yield?
    ensures !NobodyReads(s)
  {
    assert Reading(s.tasks[step.task]);
  }

  lemma {:induction false} NobodyReadsAgain(states: seq<State>, steps: seq<Step>, i: nat, j: nat)
    requires IsRun(states, steps) && i <= j < |states| && states[i].closed && NobodyReads(states[i])
    ensures states[j].closed && NobodyReads(states[j])
    decreases j
  {
    hide Do, Enabled, Inv, NobodyReads;
    if i < j {
      NobodyReadsAgain(states, steps, i, j - 1);
      RunsKeepInv(states, steps, j - 1);
      FlagStaysSet(states[j - 1], steps[j - 1]);
      ClosedReadersOnlyLeave(states[j - 1], steps[j - 1]);
    }
  }

  /** After one item handed out with the flag set, there is never another. */
  lemma NothingAfterLateDelivery(states: seq<State>, steps: seq<Step>, i: nat, j: nat)
    requires IsRun(states, steps) && i < j < |steps| && states[i].closed && steps[i].Yield?
    ensures !steps[j].Yield?
  {
    hide Do, Inv, NobodyReads;
    RunsKeepInv(states, steps, i);
    FlagStaysSet(states[i], steps[i]);
    ClosedReadersOnlyLeave(states[i], steps[i]);
    NobodyReadsAgain(states, steps, i + 1, j);
    if steps[j].Yield? {
      YieldNeedsReader(states[j], steps[j]);
    }
  }

  /** The step takes the stream out of its slot, to close it. */
  predicate TakesStream(s: State, step: Step) {
    Enabled(s, step) && !step.Arrive? && MoveOf(s, step).effect.TakeStream?
  }

  /** Whoever takes the stream goes on to close it, and nobody else is closing it then. */
  lemma TakerCloses(s: State, step: Step)
    requires Inv(s) && TakesStream(s, step)
    ensures var tasks := Do(s, step).tasks;
            && (tasks[step.task].RunClosing? || tasks[step.task].SpawnClosing? || tasks[step.task].CloseClosing?)
            && forall t :: 0 <= t < |tasks| && t != step.task ==>
                 !tasks[t].RunClosing? && !tasks[t].SpawnClosing? && !tasks[t].CloseClosing?
  {
    hide MutuallyExclusive, NoLostWakeUp, FlagIsSet;
    TakenOnlyWhenPresent(s, step);
    OthersStay(s, step.task, MoveOf(s, step));
    TakingMove(s.tasks[step.task], s.closed, s.present);
  }

  lemma TakingMove(pc: Pc, closed: bool, present: bool)
    ensures var m := AdvanceMove(pc, closed, present);
            m.effect.TakeStream? ==> m.next.RunClosing? || m.next.SpawnClosing? || m.next.CloseClosing?
  {
  }

  ghost function Takes(states: seq<State>, steps: seq<Step>): nat
    requires |states| == |steps| + 1
    decreases |steps|
  {
    if steps == [] then 0
    else
      var n := |steps| - 1;
      Takes(states[..n + 1], steps[..n]) + if TakesStream(states[n], steps[n]) then 1 else 0
  }

  /** Nobody takes a stream that is not there. */
  lemma TakenOnlyWhenPresent(s: State, step: Step)
    requires TakesStream(s, step)
    ensures s.present
  {
  }

  /** Over any run at most one task takes the stream, whoever gets there first. */
  lemma {:induction false} TakenAtMostOnce(states: seq<State>, steps: seq<Step>)
    requires IsRun(states, steps)
    ensures Takes(states, steps) == if states[|steps|].present then 0 else 1
    decreases |steps|
  {
    hide Do, Enabled, TakesStream;
    if steps != [] {
      var n := |steps| - 1;
      SchedulePrefix(states, steps, n);
      TakenAtMostOnce(states[..n + 1], steps[..n]);
      SlotAfterStep(states[n], steps[n]);
      if TakesStream(states[n], steps[n]) {
        TakenOnlyWhenPresent(states[n], steps[n]);
      }
    }
  }

  lemma SlotAfterStep(s: State, step: Step)
    requires Enabled(s, step)
    ensures Do(s, step).present == (s.present && !TakesStream(s, step))
  {
    hide MoveOf;
  }

  /** Once a closer, a `run` or a spawned task has looked into the slot, the stream is out of it
      for good. */
  lemma {:induction false} GoneOnceLookedFor(states: seq<State>, steps: seq<Step>, i: nat, j: nat)
    requires IsSchedule(states, steps) && i < j <= |steps| && steps[i].Advance?
    requires var pc := states[i].tasks[steps[i].task]; pc.RunTake? || pc.SpawnTake? || pc.CloseTake?
    ensures !states[j].present
    decreases j
  {
    hide Do, Enabled, TakesStream;
    SlotAfterStep(states[j - 1], steps[j - 1]);
    if i < j - 1 {
      GoneOnceLookedFor(states, steps, i, j - 1);
    } else {
      LookingTakes(states[i], steps[i]);
    }
  }

  lemma LookingTakes(s: State, step: Step)
    requires step.Advance? && Enabled(s, step)
    requires var pc := s.tasks[step.task]; pc.RunTake? || pc.SpawnTake? || pc.CloseTake?
    ensures s.present ==> TakesStream(s, step)
  {
  }

  // ---------- Closing comes to an end ----------

  /** How many steps a task may still take once the flag is set, a cancellation and items that
      arrive late included. */
  function Rank(pc: Pc): nat {
    match pc
    case NextCheck => 5
    case NextLock => 4
    case NextRegister => 3
    case NextRecheck(_) => 2
    case NextRead(_) => 1
    case RunStart => MAX_RANK
    case RunLock => 13
    case RunRead(_) => 12
    case RunRegister => 11
    case RunRecheck(_) => 10
    case RunSetFlag => 9
    case RunTake => 8
    case RunClosing => 7
    case RunDisarm => 1
    case DropSetFlag => 6
    case DropWake => 5
    case DropSpawn => 4
    case SpawnLock => 3
    case SpawnTake => 2
    case SpawnClosing => 1
    case CloseSetFlag => 5
    case CloseWake => 4
    case CloseLock => 3
    case CloseTake => 2
    case CloseClosing => 1
    case Done => 0
  }

  const MAX_RANK: nat := 14

  function TotalRank(tasks: seq<Pc>): nat {
    if tasks == [] then 0 else Rank(tasks[0]) + TotalRank(tasks[1..])
  }

  lemma {:induction false} TotalRankOfConcat(a: seq<Pc>, b: seq<Pc>)
    ensures TotalRank(a + b) == TotalRank(a) + TotalRank(b)
    decreases |a|
  {
    if a == [] {
      assert a + b == b;
    } else {
      assert (a + b)[1..] == a[1..] + b;
      TotalRankOfConcat(a[1..], b);
    }
  }

  lemma {:induction false} TotalRankOfUpdate(tasks: seq<Pc>, t: nat, pc: Pc)
    requires t < |tasks|
    ensures TotalRank(tasks[t := pc]) == TotalRank(tasks) - Rank(tasks[t]) + Rank(pc)
    decreases t
  {
    hide Rank;
    if t > 0 {
      assert tasks[t := pc][1..] == tasks[1..][t - 1 := pc];
      TotalRankOfUpdate(tasks[1..], t - 1, pc);
    }
  }

  lemma {:induction false} WakingKeepsRank(tasks: seq<Pc>)
    ensures TotalRank(WakeAll(tasks)) == TotalRank(tasks)
    decreases |tasks|
  {
    if tasks != [] {
      assert WakeAll(tasks)[1..] == WakeAll(tasks[1..]);
      WakingKeepsRank(tasks[1..]);
      assert Rank(Woken(tasks[0])) == Rank(tasks[0]);
    }
  }

  lemma MoveLowersRank(s: State, step: Step)
    requires Enabled(s, step) && !step.Arrive? && s.closed
    ensures var m := MoveOf(s, step);
            Rank(m.next) + (if m.effect.SpawnCloser? then Rank(SpawnLock) else 0) < Rank(s.tasks[step.task])
  {
    hide AdvanceMove, Rank, CancelMove, YieldMove;
    match step
    case Advance(t) => AdvanceLowersRank(s.tasks[t], s.present);
    case Yield(t, item) => YieldLowersRank(s.tasks[t], item);
    case Cancel(t) => CancelLowersRank(s, t);
  }

  lemma AdvanceLowersRank(pc: Pc, present: bool)
    requires !pc.Done?
    ensures var m := AdvanceMove(pc, true, present);
            Rank(m.next) + (if m.effect.SpawnCloser? then Rank(SpawnLock) else 0) < Rank(pc)
  {
  }

  lemma YieldLowersRank(pc: Pc, item: Item)
    requires Reading(pc)
    ensures var m := YieldMove(pc, item); Rank(m.next) < Rank(pc) && !m.effect.SpawnCloser?
  {
  }

  lemma CancelLowersRank(s: State, t: nat)
    requires Enabled(s, Cancel(t))
    ensures var m := CancelMove(s.tasks[t]); Rank(m.next) < Rank(s.tasks[t]) && !m.effect.SpawnCloser?
  {
  }

  /** With the flag set, every step of a task lowers the total, whatever it does to the others;
      a newcomer adds what it brings. */
  lemma StepLowersRank(s: State, step: Step)
    requires Enabled(s, step) && s.closed
    ensures var after := TotalRank(Do(s, step).tasks);
            if step.Arrive? then after <= TotalRank(s.tasks) + MAX_RANK else after < TotalRank(s.tasks)
  {
    hide Rank, MoveOf, Woken;
    if step.Arrive? {
      TotalRankOfConcat(s.tasks, [step.start]);
      assert TotalRank([step.start]) == Rank(step.start) + TotalRank([]);
      RankIsBounded(step.start);
    } else {
      var m := MoveOf(s, step);
      MoveLowersRank(s, step);
      var others := if m.effect.WakeEveryone? then WakeAll(s.tasks) else s.tasks;
      WakingKeepsRank(s.tasks);
      WokenRank(s.tasks[step.task]);
      TotalRankOfUpdate(others, step.task, m.next);
      TotalRankOfConcat(others[step.task := m.next], if m.effect.SpawnCloser? then [SpawnLock] else []);
      assert TotalRank([SpawnLock]) == Rank(SpawnLock) + TotalRank([]);
    }
  }

  lemma RankIsBounded(pc: Pc)
    ensures Rank(pc) <= MAX_RANK
  {
  }

  lemma WokenRank(pc: Pc)
    ensures Rank(Woken(pc)) == Rank(pc)
  {
  }

  ghost predicate Finished(s: State) {
    forall t :: 0 <= t < |s.tasks| ==> s.tasks[t].Done?
  }

  /** No deadlock: once the flag is set, some task can move until all are done. */
  lemma ClosedNeverSticks(s: State)
    requires Inv(s) && s.closed && !Finished(s)
    ensures exists t :: CanAdvance(s, t)
  {
    if s.holder.Some? {
      var h := s.holder.value;
      HolderIsNotWaiting(s.tasks[h]);
      if Reading(s.tasks[h]) && !s.tasks[h].woken {
        var u :| 0 <= u < |s.tasks| && AboutToWake(s.tasks[u]);
        assert CanAdvance(s, u);
      } else {
        assert CanAdvance(s, h);
      }
    } else {
      var t :| 0 <= t < |s.tasks| && !s.tasks[t].Done?;
      assert CanAdvance(s, t);
    }
  }

  lemma HolderIsNotWaiting(pc: Pc)
    requires HoldsLock(pc)
    ensures !Waiting(pc) && !pc.Done?
  {
  }

  function Arrivals(steps: seq<Step>): nat {
    if steps == [] then 0
    else Arrivals(steps[..|steps| - 1]) + if steps[|steps| - 1].Arrive? then 1 else 0
  }

  /** An `aclose` dropped while it waits for the lock: it will never take the stream. */
  predicate GivesUp(s: State, step: Step) {
    step.Cancel? && step.task < |s.tasks| && s.tasks[step.task].CloseLock?
  }

  /** The stream is out of its slot, or some task is on its way to it. */
  ghost predicate Promised(s: State) {
    s.present ==> SomeTask(s.tasks, Responsible)
  }

  lemma StepKeepsPromised(s: State, step: Step)
    requires Promised(s) && Enabled(s, step) && !GivesUp(s, step)
    ensures Promised(Do(s, step))
  {
    hide MoveOf, Responsible, Apply, TakesStream;
    SlotAfterStep(s, step);
    if s.present {
      if step.Arrive? {
        var u :| 0 <= u < |s.tasks| && Responsible(s.tasks[u]);
        assert Responsible((s.tasks + [step.start])[u]);
      } else {
        MovesKeepPromise(s, step);
        OnlyGivingUpAbandons(s, step);
        PromiseAfterMove(s, step.task, MoveOf(s, step));
      }
    }
  }

  lemma OnlyGivingUpAbandons(s: State, step: Step)
    requires Enabled(s, step) && !step.Arrive?
    ensures MoveOf(s, step).effect.Abandon? ==> GivesUp(s, step)
  {
  }

  /** With the flag set, a schedule is no longer than the tasks there are and the tasks that
      arrive allow, whatever is delivered late and whoever is cancelled wherever it awaits. */
  lemma {:induction false} ClosingIsShort(states: seq<State>, steps: seq<Step>)
    requires IsSchedule(states, steps) && Inv(states[0]) && states[0].closed
    ensures var end := states[|steps|];
            && |steps| + TotalRank(end.tasks) <= TotalRank(states[0].tasks) + (MAX_RANK + 1) * Arrivals(steps)
            && Inv(end) && end.closed
    decreases |steps|
  {
    hide Do, Enabled, Inv, TotalRank;
    if steps != [] {
      var n := |steps| - 1;
      SchedulePrefix(states, steps, n);
      ClosingIsShort(states[..n + 1], steps[..n]);
      StepLowersRank(states[n], steps[n]);
      StepKeepsInv(states[n], steps[n]);
      FlagStaysSet(states[n], steps[n]);
    }
  }

  /** If the stream is promised at the start and no waiting `aclose` is dropped, it stays so. */
  lemma {:induction false} PromiseIsKept(states: seq<State>, steps: seq<Step>)
    requires IsSchedule(states, steps) && Promised(states[0])
    requires forall i :: 0 <= i < |steps| ==> !GivesUp(states[i], steps[i])
    ensures Promised(states[|steps|])
    decreases |steps|
  {
    hide Do, Enabled, Promised, GivesUp;
    if steps != [] {
      var n := |steps| - 1;
      SchedulePrefix(states, steps, n);
      PromiseIsKept(states[..n + 1], steps[..n]);
      StepKeepsPromised(states[n], steps[n]);
    }
  }

  /** A schedule after the close that can go no further has all tasks done; and the stream is out
      of its slot if somebody was on the way to it and no waiting `aclose` was dropped since,
      whatever was dropped before. */
  lemma ClosingEnds(states: seq<State>, steps: seq<Step>)
    requires IsSchedule(states, steps) && Inv(states[0]) && states[0].closed
    requires forall t :: !CanAdvance(states[|steps|], t)
    ensures Finished(states[|steps|])
    ensures Promised(states[0]) && (forall i :: 0 <= i < |steps| ==> !GivesUp(states[i], steps[i])) ==>
              !states[|steps|].present
  {
    var end := states[|steps|];
    hide IsSchedule, Inv, CanAdvance, GivesUp;
    ClosingIsShort(states, steps);
    if !Finished(end) {
      ClosedNeverSticks(end);
    }
    if Promised(states[0]) && (forall i :: 0 <= i < |steps| ==> !GivesUp(states[i], steps[i])) {
      PromiseIsKept(states, steps);
    }
  }

  // ---------- Who closes, and when ----------

  /** Bound to set the flag and take the stream, whoever is cancelled: a `run` that stopped
      reading, its guard, and the task the guard spawns. */
  predicate OnTheWay(pc: Pc) {
    || pc.RunSetFlag? || pc.RunTake? || pc.DropSetFlag? || pc.DropWake? || pc.DropSpawn?
    || pc.SpawnLock? || pc.SpawnTake?
  }

  ghost predicate Committed(s: State) {
    SomeTask(s.tasks, OnTheWay) || (s.closed && !s.present)
  }

  /** The move of a task on the way: it stays so, or it has taken the stream, or found it taken. */
  lemma OnTheWayStays(s: State, step: Step)
    requires Enabled(s, step) && !step.Arrive? && OnTheWay(s.tasks[step.task])
    ensures var m := MoveOf(s, step);
            OnTheWay(m.next) || m.effect.SpawnCloser? || m.effect.TakeStream? || !s.present
    ensures OnTheWay(s.tasks[step.task]) && !HasSetFlag(s.tasks[step.task]) ==> OnTheWay(MoveOf(s, step).next)
  {
  }

  lemma OnTheWayUnwoken(pc: Pc)
    ensures OnTheWay(Woken(pc)) == OnTheWay(pc) && OnTheWay(SpawnLock)
  {
  }

  lemma StepKeepsCommitted(s: State, step: Step)
    requires Inv(s) && Committed(s) && Enabled(s, step)
    ensures Committed(Do(s, step))
  {
    hide MoveOf, OnTheWay, HasSetFlag, Woken, TakesStream, MutuallyExclusive, NoLostWakeUp, WillBeTaken;
    FlagStaysSet(s, step);
    SlotAfterStep(s, step);
    if u :| 0 <= u < |s.tasks| && OnTheWay(s.tasks[u]) {
      if step.Arrive? {
        assert OnTheWay(Do(s, step).tasks[u]);
      } else {
        OthersStay(s, step.task, MoveOf(s, step));
        OnTheWayUnwoken(s.tasks[u]);
        if u != step.task {
          assert OnTheWay(Do(s, step).tasks[u]);
        } else {
          OnTheWayMoves(s, step);
        }
      }
    }
  }

  lemma OnTheWayMoves(s: State, step: Step)
    requires FlagIsSet(s) && Enabled(s, step) && !step.Arrive? && OnTheWay(s.tasks[step.task])
    ensures Committed(Do(s, step))
  {
    hide MoveOf, OnTheWay, HasSetFlag, Woken, TakesStream;
    var m := MoveOf(s, step);
    OthersStay(s, step.task, m);
    ApplyMovesLock(s, step.task, m);
    OnTheWayStays(s, step);
    OnTheWayUnwoken(SpawnLock);
    var after := Do(s, step).tasks;
    if OnTheWay(m.next) {
      assert OnTheWay(after[step.task]);
    } else if m.effect.SpawnCloser? {
      assert OnTheWay(after[|s.tasks|]);
    }
  }

  lemma {:induction false} CommitmentIsKept(states: seq<State>, steps: seq<Step>, i: nat, j: nat)
    requires IsRun(states, steps) && i <= j < |states| && Committed(states[i])
    ensures Committed(states[j])
    decreases j
  {
    hide Do, Enabled, Inv, Committed;
    if i < j {
      CommitmentIsKept(states, steps, i, j - 1);
      RunsKeepInv(states, steps, j - 1);
      StepKeepsCommitted(states[j - 1], steps[j - 1]);
    }
  }

  lemma CommittedEnds(s: State)
    requires Inv(s) && Committed(s) && forall t :: !CanAdvance(s, t)
    ensures s.closed && Finished(s) && !s.present
  {
    hide NoLostWakeUp, WillBeTaken;
    if u :| 0 <= u < |s.tasks| && OnTheWay(s.tasks[u]) {
      assert !CanAdvance(s, u);
      assert HasSetFlag(s.tasks[u]);
    }
    if !Finished(s) {
      ClosedNeverSticks(s);
    }
  }

  /** A `run` whose stream ends or fails, or that is dropped anywhere after it started, closes: when
      nobody can move any more the flag is set, all tasks are done and the stream is taken, whoever
      else is cancelled on the way. */
  lemma RunCloses(states: seq<State>, steps: seq<Step>, i: nat)
    requires IsRun(states, steps) && i < |steps| && (steps[i].Yield? || steps[i].Cancel?)
    requires var pc := states[i].tasks[steps[i].task];
             if steps[i].Yield? then pc.RunRead? && !steps[i].item.Notification?
             else pc.RunLock? || pc.RunRead? || pc.RunClosing?
    requires forall t :: !CanAdvance(states[|steps|], t)
    ensures var end := states[|steps|]; end.closed && Finished(end) && !end.present
  {
    var s, t := states[i], steps[i].task;
    RunsKeepInv(states, steps, i);
    RunsKeepInv(states, steps, |steps|);
    RunStops(s, steps[i]);
    CommitmentIsKept(states, steps, i + 1, |steps|);
    CommittedEnds(states[|steps|]);
  }

  lemma RunStops(s: State, step: Step)
    requires Enabled(s, step) && (step.Yield? || step.Cancel?)
    requires var pc := s.tasks[step.task];
             if step.Yield? then pc.RunRead? && !step.item.Notification?
             else pc.RunLock? || pc.RunRead? || pc.RunClosing?
    ensures Committed(Do(s, step))
  {
    assert OnTheWay(Do(s, step).tasks[step.task]);
  }

  /** Where a `run` that has started stands: still in its loop, or committed to the close. */
  ghost predicate RunStands(s: State, t: nat) {
    && t < |s.tasks|
    && var pc := s.tasks[t];
       pc.RunLock? || pc.RunRegister? || pc.RunRecheck? || pc.RunRead? || Committed(s)
  }

  lemma RunMovesOn(s: State, step: Step, t: nat)
    requires Inv(s) && RunStands(s, t) && Enabled(s, step)
    ensures RunStands(Do(s, step), t)
  {
    hide MutuallyExclusive, NoLostWakeUp, FlagIsSet, WillBeTaken, Committed;
    if !step.Arrive? {
      OthersStay(s, step.task, MoveOf(s, step));
    }
    if Committed(s) {
      StepKeepsCommitted(s, step);
    } else if !step.Arrive? && step.task == t {
      if OnTheWay(Do(s, step).tasks[t]) {
        OneIsEnough(Do(s, step), t);
      }
    }
  }

  lemma OneIsEnough(s: State, t: nat)
    requires t < |s.tasks| && OnTheWay(s.tasks[t])
    ensures Committed(s)
  {
  }

  lemma {:induction false} RunStandsOn(states: seq<State>, steps: seq<Step>, i: nat, j: nat, t: nat)
    requires IsRun(states, steps) && i <= j < |states| && RunStands(states[i], t)
    ensures RunStands(states[j], t)
    decreases j
  {
    hide Do, Enabled, Inv, RunStands;
    if i < j {
      RunStandsOn(states, steps, i, j - 1, t);
      RunsKeepInv(states, steps, j - 1);
      RunMovesOn(states[j - 1], steps[j - 1], t);
    }
  }

  /** However a `run` that has started leaves its loop, woken by a closer that is itself dropped
      included: when nobody can move any more it waits, with the flag unset, for an item or for the
      lock, or all is closed as above. */
  lemma StartedRunReadsOrCloses(states: seq<State>, steps: seq<Step>, i: nat, t: nat)
    requires IsRun(states, steps) && i < |states| && t < |states[i].tasks|
    requires var pc := states[i].tasks[t]; pc.RunLock? || pc.RunRegister? || pc.RunRecheck? || pc.RunRead?
    requires forall u :: !CanAdvance(states[|steps|], u)
    ensures var end := states[|steps|];
            || (!end.closed && t < |end.tasks| && (end.tasks[t].RunRead? || end.tasks[t].RunLock?))
            || (end.closed && Finished(end) && !end.present)
  {
    hide Do, Enabled, Committed;
    var end := states[|steps|];
    RunStandsOn(states, steps, i, |steps|, t);
    RunsKeepInv(states, steps, |steps|);
    if Committed(end) {
      CommittedEnds(end);
    } else {
      assert !CanAdvance(end, t);
      if end.closed {
        ClosedNeverSticks(end);
      }
    }
  }

  /** Where an `aclose` that is not dropped stands: before the stream is out of its slot, or after. */
  ghost predicate CloserStands(s: State, t: nat) {
    && t < |s.tasks|
    && var pc := s.tasks[t];
       pc.CloseSetFlag? || (s.closed && (!s.present || pc.CloseWake? || pc.CloseLock? || pc.CloseTake?))
  }

  lemma CloserMovesOn(s: State, step: Step, t: nat)
    requires Inv(s) && CloserStands(s, t) && Enabled(s, step) && step != Cancel(t)
    ensures CloserStands(Do(s, step), t)
  {
    hide MutuallyExclusive, NoLostWakeUp, FlagIsSet, WillBeTaken, CancelMove, TakesStream;
    FlagStaysSet(s, step);
    SlotAfterStep(s, step);
    if !step.Arrive? {
      OthersStay(s, step.task, MoveOf(s, step));
    }
  }

  lemma {:induction false} CloserStandsOn(states: seq<State>, steps: seq<Step>, i: nat, j: nat, t: nat)
    requires IsRun(states, steps) && i <= j < |states| && CloserStands(states[i], t)
    requires forall k :: i <= k < |steps| ==> steps[k] != Cancel(t)
    ensures CloserStands(states[j], t)
    decreases j
  {
    hide Do, Enabled, Inv, CloserStands;
    if i < j {
      CloserStandsOn(states, steps, i, j - 1, t);
      RunsKeepInv(states, steps, j - 1);
      CloserMovesOn(states[j - 1], steps[j - 1], t);
    }
  }

  /** An `aclose` that is not dropped closes, in the same sense. */
  lemma AcloseCloses(states: seq<State>, steps: seq<Step>, i: nat, t: nat)
    requires IsRun(states, steps) && i < |states| && t < |states[i].tasks| && states[i].tasks[t].CloseSetFlag?
    requires forall k :: i <= k < |steps| ==> steps[k] != Cancel(t)
    requires forall u :: !CanAdvance(states[|steps|], u)
    ensures var end := states[|steps|]; end.closed && Finished(end) && !end.present
  {
    hide Do, Enabled;
    var end := states[|steps|];
    CloserStandsOn(states, steps, i, |steps|, t);
    RunsKeepInv(states, steps, |steps|);
    assert !CanAdvance(end, t);
    if !Finished(end) {
      ClosedNeverSticks(end);
    }
  }

  /** A step by which the stream is asked to close. */
  predicate AsksToClose(s: State, step: Step) {
    match step
    case Arrive(start) => start.CloseSetFlag?
    case Advance(_) => false
    case Yield(t, item) => t < |s.tasks| && s.tasks[t].RunRead? && !item.Notification?
    case Cancel(t) => t < |s.tasks| && (s.tasks[t].RunLock? || s.tasks[t].RunRead? || s.tasks[t].RunClosing?)
  }

  /** The flag unset, the stream in its slot, and every task reading, on its way to, or done. */
  ghost predicate Untouched(s: State) {
    && !s.closed && s.present
    && forall t :: 0 <= t < |s.tasks| ==>
         var pc := s.tasks[t];
         || pc.NextCheck? || pc.NextLock? || pc.NextRegister? || pc == NextRecheck(false) || pc == NextRead(false)
         || pc.RunStart? || pc.RunLock? || pc.RunRegister? || pc == RunRecheck(false) || pc == RunRead(false)
         || pc.Done?
  }

  lemma StepLeavesUntouched(s: State, step: Step)
    requires Untouched(s) && Enabled(s, step) && !AsksToClose(s, step)
    ensures Untouched(Do(s, step))
  {
    if !step.Arrive? {
      OthersStay(s, step.task, MoveOf(s, step));
    }
  }

  /** Nobody closes unasked: until an `aclose` arrives, or a `run` ends or is dropped, any number of
      reads, notifications and dropped reads leave the stream open and in its slot. */
  lemma {:induction false} OpenUntilAsked(states: seq<State>, steps: seq<Step>, i: nat)
    requires IsRun(states, steps) && i < |states|
    requires forall k :: 0 <= k < i ==> !AsksToClose(states[k], steps[k])
    ensures Untouched(states[i])
    decreases i
  {
    hide Do, Enabled, AsksToClose;
    if i > 0 {
      OpenUntilAsked(states, steps, i - 1);
      StepLeavesUntouched(states[i - 1], steps[i - 1]);
    }
  }

  /** `__anext__` hands out one item and is done; one that starts after the close is done at once. */
  lemma NextIsDone(s: State, t: nat, item: Item)
    requires t < |s.tasks|
    ensures s.tasks[t].NextRead? ==> Do(s, Yield(t, item)).tasks[t] == Done
    ensures s.tasks[t].NextCheck? && s.closed ==> Do(s, Advance(t)).tasks[t] == Done
  {
  }

  /** With the lock free and the stream open, a reader that starts gets to wait for an item. */
  lemma NextGetsToRead(s: State, t: nat)
    requires t < |s.tasks| && s.tasks[t].NextCheck? && !s.closed && s.present && s.holder.None?
    ensures var s1 := Do(s, Advance(t));
            CanAdvance(s1, t) &&
            var s2 := Do(s1, Advance(t));
            CanAdvance(s2, t) &&
            var s3 := Do(s2, Advance(t));
            CanAdvance(s3, t) && Do(s3, Advance(t)) == s.(holder := Some(t), tasks := s.tasks[t := NextRead(false)])
  {
    hide Woken, Responsible, HasSetFlag;
  }

  lemma RunGetsToRead(s: State, t: nat)
    requires t < |s.tasks| && s.tasks[t].RunStart? && !s.closed && s.present && s.holder.None?
    ensures var s1 := Do(s, Advance(t));
            CanAdvance(s1, t) &&
            var s2 := Do(s1, Advance(t));
            CanAdvance(s2, t) &&
            var s3 := Do(s2, Advance(t));
            CanAdvance(s3, t) && Do(s3, Advance(t)) == s.(holder := Some(t), tasks := s.tasks[t := RunRead(false)])
  {
    hide Woken, Responsible, HasSetFlag;
  }

  /** `run` takes a notification and, unless the stream is closed or gone, waits for the next. */
  lemma RunReadsOn(s: State, t: nat)
    requires t < |s.tasks| && s.tasks[t].RunRead? && !s.closed && s.present
    ensures var first := Do(s, Yield(t, Notification));
            CanAdvance(first, t) &&
            var second := Do(first, Advance(t));
            CanAdvance(second, t) && Do(second, Advance(t)) == s.(tasks := s.tasks[t := RunRead(false)])
  {
    hide Woken;
  }

  /** Such an end can always be reached, by letting tasks move in any order. */
  method FinishClosing(start: State) returns (s: State)
    requires Inv(start) && start.closed
    ensures Inv(s) && s.closed && Finished(s)
    ensures Promised(start) ==> !s.present
    ensures !start.abandoned ==> !s.present
  {
    hide MoveOf;
    s := start;
    while exists t :: 0 <= t < |s.tasks| && CanAdvance(s, t)
      invariant Inv(s) && s.closed && (Promised(start) ==> Promised(s))
      decreases TotalRank(s.tasks)
    {
      var t :| 0 <= t < |s.tasks| && CanAdvance(s, t);
      StepLowersRank(s, Advance(t));
      StepKeepsInv(s, Advance(t));
      FlagStaysSet(s, Advance(t));
      if Promised(s) {
        StepKeepsPromised(s, Advance(t));
      }
      s := Do(s, Advance(t));
    }
    if !Finished(s) {
      ClosedNeverSticks(s);
    }
  }
}
