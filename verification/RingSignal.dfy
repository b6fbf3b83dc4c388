/** The data-ready signal of the ring buffer: any number of writers, one server task that allocates, reads and frees,
    and a control task that resets, interleaved between any two uses of the mutex, the semaphore and the buffer. */
module RingSignal {
  datatype WriterPc =
    | Idle      // outside the write
    | Entered   // has seen a buffer, does not have the mutex yet
    | Locked    // holds the mutex
    | Written   // holds the mutex, bytes stored
    | Signal    // mutex given back, signal not given yet

  datatype ServerPc =
    | Accepting // no client
    | AllocWant
    | AllocLocked
    | Draining  // buffer allocated, mutex given back, stale signal not drained yet
    | Stream    // between two reads
    | Wait      // waits for the signal
    | Taken     // has the signal, does not have the mutex yet
    | Reading   // holds the mutex
    | Left      // holds the mutex, bytes taken out, more are left
    | Unlocking // holds the mutex, done
    | FreeWant
    | FreeLocked

  datatype Owner = Nobody | Writer(i: nat) | Server | Control

  datatype State = State(
    capacity: nat,
    present: bool,
    available: nat,
    sem: bool,
    mutex: Owner,
    writers: seq<WriterPc>,
    server: ServerPc)

  datatype Step =
    | WriterEnter(i: nat)
    | WriterBusy(i: nat)
    | WriterLock(i: nat)
    | WriterGone(i: nat)
    | WriterFull(i: nat, len: nat)
    | WriterCopy(i: nat, len: nat)
    | WriterUnlock(i: nat)
    | WriterSignal(i: nat)
    | Accept
    | AllocLock
    | AllocFail
    | AllocDone
    | Drain
    | ReadEnter
    | ReadTimeout
    | ReadTake
    | ReadLock
    | ReadEmpty
    | ReadCopy(max: nat)
    | ReadGive
    | ReadUnlock
    | Disconnect
    | FreeLock
    | FreeDone
    | ControlLock
    | ControlReset

  predicate At(s: State, i: nat, pc: WriterPc) {
    i < |s.writers| && s.writers[i] == pc
  }

  predicate Enabled(s: State, step: Step) {
    match step
    case WriterEnter(i) => At(s, i, Idle) && s.present
    case WriterBusy(i) => At(s, i, Entered) && s.mutex != Nobody
    case WriterLock(i) => At(s, i, Entered) && s.mutex == Nobody
    case WriterGone(i) => At(s, i, Locked) && !s.present
    case WriterFull(i, len) => At(s, i, Locked) && s.present && s.available + len > s.capacity
    case WriterCopy(i, len) => At(s, i, Locked) && s.present && s.available + len <= s.capacity
    case WriterUnlock(i) => At(s, i, Written)
    case WriterSignal(i) => At(s, i, Signal)
    case Accept => s.server == Accepting
    case AllocLock => s.server == AllocWant && s.mutex == Nobody
    case AllocFail => s.server == AllocLocked && !s.present
    case AllocDone => s.server == AllocLocked
    case Drain => s.server == Draining
    case ReadEnter => s.server == Stream && s.present
    case ReadTimeout => s.server == Wait && !s.sem
    case ReadTake => s.server == Wait && s.sem
    case ReadLock => s.server == Taken && s.mutex == Nobody
    case ReadEmpty => s.server == Reading && (!s.present || s.available == 0)
    case ReadCopy(max) => s.server == Reading && s.present && s.available > 0 && max > 0
    case ReadGive => s.server == Left
    case ReadUnlock => s.server == Unlocking
    case Disconnect => s.server == Stream
    case FreeLock => s.server == FreeWant && s.mutex == Nobody
    case FreeDone => s.server == FreeLocked
    case ControlLock => s.mutex == Nobody
    case ControlReset => s.mutex == Control
  }

  function Move(s: State, i: nat, pc: WriterPc): State
    requires i < |s.writers|
  {
    s.(writers := s.writers[i := pc])
  }

  function Apply(s: State, step: Step): State
    requires Enabled(s, step)
  {
    match step
    case WriterEnter(i) => Move(s, i, Entered)
    case WriterBusy(i) => Move(s, i, Idle)
    case WriterLock(i) => Move(s, i, Locked).(mutex := Writer(i))
    case WriterGone(i) => Move(s, i, Idle).(mutex := Nobody)
    case WriterFull(i, len) => Move(s, i, Idle).(mutex := Nobody)
    case WriterCopy(i, len) => Move(s, i, Written).(available := s.available + len)
    case WriterUnlock(i) => Move(s, i, Signal).(mutex := Nobody)
    case WriterSignal(i) => Move(s, i, Idle).(sem := true)
    case Accept => s.(server := AllocWant)
    case AllocLock => s.(server := AllocLocked, mutex := Server)
    case AllocFail => s.(server := FreeWant, mutex := Nobody)
    case AllocDone =>
      if s.present then s.(server := Stream, mutex := Nobody)
      else s.(server := Draining, mutex := Nobody, present := true, available := 0)
    case Drain => s.(server := Stream, sem := false)
    case ReadEnter => s.(server := Wait)
    case ReadTimeout => s.(server := Stream)
    case ReadTake => s.(server := Taken, sem := false)
    case ReadLock => s.(server := Reading, mutex := Server)
    case ReadEmpty => s.(server := Stream, mutex := Nobody)
    case ReadCopy(max) =>
      if max < s.available then s.(server := Left, available := s.available - max)
      else s.(server := Unlocking, available := 0)
    case ReadGive => s.(server := Unlocking, sem := true)
    case ReadUnlock => s.(server := Stream, mutex := Nobody)
    case Disconnect => s.(server := FreeWant)
    case FreeLock => s.(server := FreeLocked, mutex := Server)
    case FreeDone => s.(server := Accepting, mutex := Nobody, present := false, available := 0)
    case ControlLock => s.(mutex := Control)
    case ControlReset => s.(mutex := Nobody, available := 0)
  }

  predicate HasMutex(pc: ServerPc) {
    pc == AllocLocked || pc == Reading || pc == Left || pc == Unlocking || pc == FreeLocked
  }

  predicate BeforeAlloc(pc: ServerPc) {
    pc == Accepting || pc == AllocWant || pc == AllocLocked
  }

  predicate MidRead(pc: ServerPc) {
    pc == Taken || pc == Reading || pc == Left
  }

  predicate AboutToSignal(s: State) {
    exists i :: 0 <= i < |s.writers| && (s.writers[i] == Written || s.writers[i] == Signal)
  }

  /** Who holds the mutex is where it says it is, and the buffer exists exactly while a client is served. */
  predicate Inv(s: State) {
    && s.available <= s.capacity
    && (!s.present ==> s.available == 0)
    && (BeforeAlloc(s.server) ==> !s.present)
    && (!BeforeAlloc(s.server) && s.server != FreeWant && s.server != FreeLocked ==> s.present)
    && (s.mutex == Server <==> HasMutex(s.server))
    && (s.mutex.Writer? ==> s.mutex.i < |s.writers|)
    && forall i :: 0 <= i < |s.writers| ==>
         (s.mutex == Writer(i) <==> s.writers[i] == Locked || s.writers[i] == Written)
  }

  /** Bytes that wait are announced: the signal is set, a writer is about to set it, or the server is mid-read. */
  predicate Announced(s: State) {
    s.available > 0 ==> s.sem || AboutToSignal(s) || MidRead(s.server)
  }

  /** Nothing has been written since the allocation, or its signal is still to come. */
  predicate Quiet(s: State) {
    s.available == 0 || AboutToSignal(s)
  }

  predicate Initial(s: State) {
    && s.mutex == Nobody && s.server == Accepting && !s.present && s.available == 0
    && forall i :: 0 <= i < |s.writers| ==> s.writers[i] == Idle
  }

  predicate IsRun(states: seq<State>, steps: seq<Step>) {
    && |states| == |steps| + 1
    && forall k :: 0 <= k < |steps| ==> Enabled(states[k], steps[k]) && states[k + 1] == Apply(states[k], steps[k])
  }

  predicate IsWriterStep(step: Step) {
    step.WriterEnter? || step.WriterBusy? || step.WriterLock? || step.WriterGone? || step.WriterFull?
    || step.WriterCopy? || step.WriterUnlock? || step.WriterSignal?
  }

  lemma WriterStepKeepsInv(s: State, step: Step)
    requires Inv(s) && Enabled(s, step) && IsWriterStep(step)
    ensures Inv(Apply(s, step))
  {
    var t := Apply(s, step);
    assert t.writers == s.writers[step.i := t.writers[step.i]];
  }

  lemma ServerStepKeepsInv(s: State, step: Step)
    requires Inv(s) && Enabled(s, step) && !IsWriterStep(step)
    ensures Inv(Apply(s, step))
  {
    assert Apply(s, step).writers == s.writers;
  }

  lemma StepKeepsInv(s: State, step: Step)
    requires Inv(s) && Enabled(s, step)
    ensures Inv(Apply(s, step))
  {
    if IsWriterStep(step) {
      WriterStepKeepsInv(s, step);
    } else {
      ServerStepKeepsInv(s, step);
    }
  }

  /** A writer that is about to signal stays so until it has. */
  lemma StaysAboutToSignal(s: State, step: Step)
    requires Inv(s) && Enabled(s, step) && AboutToSignal(s)
    ensures AboutToSignal(Apply(s, step)) || step.WriterSignal?
  {
    var i :| 0 <= i < |s.writers| && (s.writers[i] == Written || s.writers[i] == Signal);
    var t := Apply(s, step);
    assert |t.writers| == |s.writers|;
    assert step.WriterSignal? || t.writers[i] == Written || t.writers[i] == Signal;
  }

  lemma StepKeepsAnnounced(s: State, step: Step)
    requires Inv(s) && Enabled(s, step) && Announced(s)
    requires step.Drain? ==> Quiet(s)
    ensures Announced(Apply(s, step))
  {
    var t := Apply(s, step);
    if AboutToSignal(s) {
      StaysAboutToSignal(s, step);
    }
    if step.WriterCopy? {
      assert t.writers[step.i] == Written;
    }
  }

  /** Draining the stale signal keeps the announcement exactly if nothing complete was written before it. */
  lemma DrainExactly(s: State)
    requires Inv(s) && s.server == Draining
    ensures Announced(Apply(s, Drain)) <==> Quiet(s)
  {
    var t := Apply(s, Drain);
    assert t.writers == s.writers;
    assert AboutToSignal(t) <==> AboutToSignal(s);
  }

  lemma {:induction false} RunKeepsInv(states: seq<State>, steps: seq<Step>, k: nat)
    requires IsRun(states, steps) && Initial(states[0]) && k <= |steps|
    ensures Inv(states[k])
  {
    if k > 0 {
      RunKeepsInv(states, steps, k - 1);
      StepKeepsInv(states[k - 1], steps[k - 1]);
    }
  }

  lemma {:induction false} RunKeepsAnnounced(states: seq<State>, steps: seq<Step>, k: nat)
    requires IsRun(states, steps) && Initial(states[0]) && k <= |steps|
    requires forall j :: 0 <= j < k && steps[j].Drain? ==> Quiet(states[j])
    ensures Announced(states[k])
  {
    if k > 0 {
      RunKeepsAnnounced(states, steps, k - 1);
      RunKeepsInv(states, steps, k - 1);
      StepKeepsAnnounced(states[k - 1], steps[k - 1]);
    }
  }

  /** A run loses no wake-up exactly if each of its drains finds nothing written, or the writer's signal still to come. */
  lemma NoLostWakeUp(states: seq<State>, steps: seq<Step>)
    requires IsRun(states, steps) && Initial(states[0])
    ensures (forall k :: 0 <= k < |states| ==> Announced(states[k]))
       <==> (forall k :: 0 <= k < |steps| && steps[k].Drain? ==> Quiet(states[k]))
  {
    if forall k :: 0 <= k < |steps| && steps[k].Drain? ==> Quiet(states[k]) {
      forall k | 0 <= k < |states|
        ensures Announced(states[k])
      {
        RunKeepsAnnounced(states, steps, k);
      }
    }
    if forall k :: 0 <= k < |states| ==> Announced(states[k]) {
      forall k | 0 <= k < |steps| && steps[k].Drain?
        ensures Quiet(states[k])
      {
        RunKeepsInv(states, steps, k);
        assert Announced(states[k + 1]);
        DrainExactly(states[k]);
      }
    }
  }

  /** While bytes wait and are announced, the reader does not time out unless a writer is about to signal. */
  lemma AnnouncedIsRead(s: State, max: nat)
    requires Inv(s) && Announced(s) && s.server == Wait && s.available > 0 && !AboutToSignal(s) && max > 0
    ensures !Enabled(s, ReadTimeout) && Enabled(s, ReadTake)
    ensures var t := Apply(s, ReadTake); s.mutex == Nobody ==>
              && Enabled(t, ReadLock) && Enabled(Apply(t, ReadLock), ReadCopy(max))
              && Apply(Apply(t, ReadLock), ReadCopy(max)).available == if max < s.available then s.available - max else 0
  {
    assert s.sem;
  }

  /** Bytes wait, nobody announces them and the server is waiting for an announcement. */
  predicate Lost(s: State) {
    Inv(s) && !Announced(s) && (s.server == Stream || s.server == Wait)
  }

  lemma StepKeepsLost(s: State, step: Step)
    requires Lost(s) && Enabled(s, step) && !step.WriterCopy? && !step.Disconnect? && !step.ControlReset?
    ensures Lost(Apply(s, step)) && Apply(s, step).available == s.available
  {
    var t := Apply(s, step);
    StepKeepsInv(s, step);
    forall i | 0 <= i < |t.writers|
      ensures t.writers[i] != Written && t.writers[i] != Signal
    {
      assert s.writers[i] != Written && s.writers[i] != Signal;
    }
  }

  /** After a lost wake-up no byte is read, however long the server polls, until the next write or the session's end. */
  lemma {:induction false} LostUntilWritten(states: seq<State>, steps: seq<Step>, k: nat)
    requires IsRun(states, steps) && Lost(states[0]) && k <= |steps|
    requires forall j :: 0 <= j < |steps| ==>
               !steps[j].WriterCopy? && !steps[j].Disconnect? && !steps[j].ControlReset?
    ensures Lost(states[k]) && states[k].available == states[0].available
  {
    if k > 0 {
      LostUntilWritten(states, steps, k - 1);
      StepKeepsLost(states[k - 1], steps[k - 1]);
    }
  }

  /** The next write announces the old bytes too. */
  lemma WriteAnnounces(s: State, i: nat, len: nat)
    requires Inv(s) && Enabled(s, WriterCopy(i, len))
    ensures Announced(Apply(s, WriterCopy(i, len)))
  {
    assert Apply(s, WriterCopy(i, len)).writers[i] == Written;
  }

  ghost predicate Reachable(t: State) {
    exists states: seq<State>, steps: seq<Step> ::
      IsRun(states, steps) && Initial(states[0]) && states[|steps|] == t
  }

  lemma ReachableStart(s: State)
    requires Initial(s)
    ensures Reachable(s)
  {
    var states: seq<State>, steps: seq<Step> := [s], [];
    assert IsRun(states, steps) && states[|steps|] == s;
  }

  lemma ReachableNext(s: State, step: Step, t: State)
    requires Reachable(s) && Enabled(s, step) && t == Apply(s, step)
    ensures Reachable(t)
  {
    var states: seq<State>, steps: seq<Step> :| IsRun(states, steps) && Initial(states[0]) && states[|steps|] == s;
    var states', steps' := states + [t], steps + [step];
    assert IsRun(states', steps') && states'[|steps'|] == t && states'[0] == states[0];
  }

  /** The state before the drain, when one writer has come as far as `pc`. */
  function BeforeDrain(c: nat, pc: WriterPc, n: nat, sem: bool): State {
    State(c, true, n, sem, if pc == Locked || pc == Written then Writer(0) else Nobody, [pc], Draining)
  }

  lemma ReachesAllocation(c: nat)
    ensures Reachable(BeforeDrain(c, Idle, 0, false))
  {
    var s0 := State(c, false, 0, false, Nobody, [Idle], Accepting);
    ReachableStart(s0);
    var s1 := s0.(server := AllocWant);
    ReachableNext(s0, Accept, s1);
    var s2 := s0.(server := AllocLocked, mutex := Server);
    ReachableNext(s1, AllocLock, s2);
    ReachableNext(s2, AllocDone, BeforeDrain(c, Idle, 0, false));
  }

  lemma ReachesWrite(c: nat, n: nat)
    requires n <= c
    ensures Reachable(BeforeDrain(c, Written, n, false))
  {
    ReachesAllocation(c);
    ReachableNext(BeforeDrain(c, Idle, 0, false), WriterEnter(0), BeforeDrain(c, Entered, 0, false));
    ReachableNext(BeforeDrain(c, Entered, 0, false), WriterLock(0), BeforeDrain(c, Locked, 0, false));
    ReachableNext(BeforeDrain(c, Locked, 0, false), WriterCopy(0, n), BeforeDrain(c, Written, n, false));
  }

  lemma ReachesSignal(c: nat, n: nat)
    requires n <= c
    ensures Reachable(BeforeDrain(c, Idle, n, true))
  {
    ReachesWrite(c, n);
    ReachableNext(BeforeDrain(c, Written, n, false), WriterUnlock(0), BeforeDrain(c, Signal, n, false));
    ReachableNext(BeforeDrain(c, Signal, n, false), WriterSignal(0), BeforeDrain(c, Idle, n, true));
  }

  /** A wake-up can be lost: a packet is written and signalled after the allocation and before the drain. */
  lemma LostWakeUp(c: nat, n: nat)
    requires 0 < n <= c
    ensures exists t :: Reachable(t) && t.capacity == c && t.available == n && Lost(t)
  {
    ReachesSignal(c, n);
    var t := State(c, true, n, false, Nobody, [Idle], Stream);
    ReachableNext(BeforeDrain(c, Idle, n, true), Drain, t);
    assert Lost(t);
  }
}
