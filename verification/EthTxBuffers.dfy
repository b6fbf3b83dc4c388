/** Ownership of the pool buffers and of the frames, in every interleaving. */
module EthTxBuffers {
  import opened EthTx

  /** What is counted: buffers, or frames by the number of their call. */
  datatype Kind = Buffer | Call

  const NONE: int := -1

  function CallerTag(pc: CallerPc, kind: Kind): int {
    if kind.Buffer? then if pc.HasBuf? then pc.data else NONE
    else if pc.Idle? || pc.Stamping? then NONE else pc.id
  }

  function FrameTag(f: Frame, kind: Kind): int {
    if kind.Buffer? then f.data else f.id
  }

  function TaskTag(pc: TaskPc, kind: Kind): int {
    match pc
    case Got(f) => FrameTag(f, kind)
    case Started(b) => if kind.Buffer? then b else NONE
    case Failed(b) => if kind.Buffer? then b else NONE
    case _ => NONE
  }

  function One(tag: int, x: nat): nat {
    if tag == x then 1 else 0
  }

  function Count(xs: seq<nat>, x: nat): nat {
    if xs == [] then 0 else One(xs[0], x) + Count(xs[1..], x)
  }

  function CallerCount(cs: seq<CallerPc>, kind: Kind, x: nat): nat {
    if cs == [] then 0 else One(CallerTag(cs[0], kind), x) + CallerCount(cs[1..], kind, x)
  }

  function QueueCount(q: seq<Frame>, kind: Kind, x: nat): nat {
    if q == [] then 0 else One(FrameTag(q[0], kind), x) + QueueCount(q[1..], kind, x)
  }

  /** The buffer in the active slot, unless the driver has just put it into the pool. */
  function ActiveTag(s: State): int {
    if s.active.Some? && !s.task.Returned? then s.active.value else NONE
  }

  /** In how many places buffer `b` is owned. */
  function Owners(s: State, b: nat): nat {
    Count(s.pool, b) + QueueCount(s.queue, Buffer, b) + One(ActiveTag(s), b) + One(TaskTag(s.task, Buffer), b)
    + CallerCount(s.callers, Buffer, b)
  }

  /** In how many places the frame of call `x` is: with its caller, queued, in the driver's hand, started, dropped. */
  function Places(s: State, x: nat): nat {
    CallerCount(s.callers, Call, x) + QueueCount(s.queue, Call, x) + One(TaskTag(s.task, Call), x)
    + Count(s.started, x) + Count(s.dropped, x)
  }

  lemma {:induction false} CallerUpdate(cs: seq<CallerPc>, i: nat, pc: CallerPc, kind: Kind, x: nat)
    requires i < |cs|
    ensures CallerCount(cs[i := pc], kind, x) + One(CallerTag(cs[i], kind), x)
         == CallerCount(cs, kind, x) + One(CallerTag(pc, kind), x)
  {
    if i > 0 {
      CallerUpdate(cs[1..], i - 1, pc, kind, x);
      assert cs[i := pc][1..] == cs[1..][i - 1 := pc];
    } else {
      assert cs[i := pc][1..] == cs[1..];
    }
  }

  lemma {:induction false} QueueAppend(q: seq<Frame>, f: Frame, kind: Kind, x: nat)
    ensures QueueCount(q + [f], kind, x) == QueueCount(q, kind, x) + One(FrameTag(f, kind), x)
  {
    if q != [] {
      QueueAppend(q[1..], f, kind, x);
      assert (q + [f])[1..] == q[1..] + [f];
    }
  }

  lemma {:induction false} CountAppend(xs: seq<nat>, y: nat, x: nat)
    ensures Count(xs + [y], x) == Count(xs, x) + One(y, x)
  {
    if xs != [] {
      CountAppend(xs[1..], y, x);
      assert (xs + [y])[1..] == xs[1..] + [y];
    }
  }

  /** No buffer is in two places; the active slot is set while the driver clears it. */
  ghost predicate Distinct(s: State) {
    && (forall b: nat :: Owners(s, b) <= if b < DEPTH then 1 else 0)
    && (s.task.Returned? ==> s.active.Some?)
  }

  /** The frame of every call that has begun is in exactly one place. */
  ghost predicate Accounted(s: State) {
    forall x: nat :: Places(s, x) == if x < |s.before| then 1 else 0
  }

  lemma {:induction false} CountMember(xs: seq<nat>, i: nat)
    requires i < |xs|
    ensures Count(xs, xs[i]) >= 1
  {
    if i > 0 {
      CountMember(xs[1..], i - 1);
    }
  }

  lemma {:induction false} QueueMember(q: seq<Frame>, i: nat)
    requires i < |q|
    ensures QueueCount(q, Buffer, q[i].data) >= 1
  {
    if i > 0 {
      QueueMember(q[1..], i - 1);
    }
  }

  lemma {:induction false} PoolSize(xs: seq<nat>)
    requires forall i :: 0 <= i < |xs| ==> xs[i] < 4
    ensures |xs| == Count(xs, 0) + Count(xs, 1) + Count(xs, 2) + Count(xs, 3)
  {
    if xs != [] {
      PoolSize(xs[1..]);
    }
  }

  lemma {:induction false} QueueSize(q: seq<Frame>)
    requires forall i :: 0 <= i < |q| ==> q[i].data < 4
    ensures |q| == QueueCount(q, Buffer, 0) + QueueCount(q, Buffer, 1) + QueueCount(q, Buffer, 2) + QueueCount(q, Buffer, 3)
  {
    if q != [] {
      QueueSize(q[1..]);
    }
  }

  lemma {:induction false} CallerMember(cs: seq<CallerPc>, i: nat)
    requires i < |cs| && cs[i].HasBuf?
    ensures CallerCount(cs, Buffer, cs[i].data) >= 1
  {
    if i > 0 {
      CallerMember(cs[1..], i - 1);
    }
  }

  /** Pool, queue and one more owner have room for four buffers together. */
  lemma SendHasRoom(s: State, b: nat)
    requires Distinct(s)
    ensures |s.pool| + |s.queue| <= DEPTH
    ensures One(ActiveTag(s), b) + One(TaskTag(s.task, Buffer), b) + CallerCount(s.callers, Buffer, b) > 0
            ==> |s.pool| + |s.queue| < DEPTH
  {
    forall i | 0 <= i < |s.pool| ensures s.pool[i] < 4 {
      CountMember(s.pool, i);
      assert Owners(s, s.pool[i]) >= 1;
    }
    forall i | 0 <= i < |s.queue| ensures s.queue[i].data < 4 {
      QueueMember(s.queue, i);
      assert Owners(s, s.queue[i].data) >= 1;
    }
    PoolSize(s.pool);
    QueueSize(s.queue);
    assert Owners(s, 0) <= 1 && Owners(s, 1) <= 1 && Owners(s, 2) <= 1 && Owners(s, 3) <= 1;
    assert Owners(s, b) <= if b < DEPTH then 1 else 0;
  }

  /** A send is about to happen; the queue it goes to is not full. */
  lemma SendSucceeds(s: State, step: Step)
    requires Distinct(s) && Enabled(s, step)
    ensures step.ReturnFailed? || (step.Release? && s.active.Some?) ==> |s.pool| < DEPTH
    ensures step.Enqueue? ==> |s.queue| < DEPTH
  {
    if step.ReturnFailed? {
      SendHasRoom(s, s.task.data);
    } else if step.Release? && s.active.Some? {
      SendHasRoom(s, s.active.value);
    } else if step.Enqueue? {
      CallerMember(s.callers, step.i);
      SendHasRoom(s, s.callers[step.i].data);
    }
  }

  /** What each step does to the owners of a buffer: only overwriting an occupied active slot loses one. */
  lemma CallerStepOwners(s: State, step: Step, b: nat)
    requires Distinct(s) && Enabled(s, step) && IsCallerStep(step)
    ensures Owners(CallerStep(s, step), b) == Owners(s, b)
  {
    var t := CallerStep(s, step);
    SendSucceeds(s, step);
    CallerUpdate(s.callers, step.i, t.callers[step.i], Buffer, b);
    assert t.callers == s.callers[step.i := t.callers[step.i]];
    if step.Enqueue? {
      QueueAppend(s.queue, Frame(s.callers[step.i].data, s.callers[step.i].id), Buffer, b);
    }
  }

  lemma TaskStepOwners(s: State, step: Step, b: nat)
    requires Distinct(s) && Enabled(s, step) && !IsCallerStep(step)
    ensures Owners(TaskStep(s, step), b) + (if step.SetActive? then One(ActiveTag(s), b) else 0) == Owners(s, b)
    ensures TaskStep(s, step).task.Returned? ==> TaskStep(s, step).active.Some?
  {
    SendSucceeds(s, step);
    if step.Release? && s.active.Some? {
      CountAppend(s.pool, s.active.value, b);
    } else if step.ReturnFailed? {
      CountAppend(s.pool, s.task.data, b);
    }
  }

  lemma StepDistinct(s: State, step: Step)
    requires Distinct(s) && Enabled(s, step)
    ensures Distinct(Apply(s, step))
  {
    forall b: nat
      ensures Owners(Apply(s, step), b) <= Owners(s, b)
    {
      if IsCallerStep(step) {
        CallerStepOwners(s, step, b);
      } else {
        TaskStepOwners(s, step, b);
      }
    }
    if !IsCallerStep(step) {
      TaskStepOwners(s, step, 0);
    }
  }

  lemma CallerStepPlaces(s: State, step: Step, x: nat)
    requires Distinct(s) && Enabled(s, step) && IsCallerStep(step)
    ensures Places(CallerStep(s, step), x) == Places(s, x) + if step.Begin? then One(|s.before|, x) else 0
  {
    var t, pc := CallerStep(s, step), s.callers[step.i];
    SendSucceeds(s, step);
    CallerUpdate(s.callers, step.i, t.callers[step.i], Call, x);
    assert t.callers == s.callers[step.i := t.callers[step.i]];
    if step.Enqueue? {
      QueueAppend(s.queue, Frame(pc.data, pc.id), Call, x);
    } else if step.StartInline? {
      CountAppend(s.started, pc.id, x);
    } else if step.PoolEmpty? {
      CountAppend(s.dropped, pc.id, x);
    }
  }

  lemma TaskStepPlaces(s: State, step: Step, x: nat)
    requires Distinct(s) && Enabled(s, step) && !IsCallerStep(step)
    ensures Places(TaskStep(s, step), x) == Places(s, x)
  {
    if step.StartQueued? {
      CountAppend(s.started, s.task.frame.id, x);
      CountAppend(s.dropped, s.task.frame.id, x);
    }
  }

  lemma StepAccounted(s: State, step: Step)
    requires Distinct(s) && Accounted(s) && Enabled(s, step)
    ensures Accounted(Apply(s, step))
  {
    var t := Apply(s, step);
    assert |t.before| == |s.before| + if step.Begin? then 1 else 0;
    forall x: nat
      ensures Places(t, x) == if x < |t.before| then 1 else 0
    {
      if IsCallerStep(step) {
        CallerStepPlaces(s, step, x);
      } else {
        TaskStepPlaces(s, step, x);
      }
    }
  }

  lemma {:induction false} IdleCallers(cs: seq<CallerPc>, kind: Kind, x: nat)
    requires forall i :: 0 <= i < |cs| ==> cs[i] == Idle
    ensures CallerCount(cs, kind, x) == 0
  {
    if cs != [] {
      IdleCallers(cs[1..], kind, x);
    }
  }

  lemma FourBuffers(x: nat)
    ensures Count([0, 1, 2, 3], x) == if x < DEPTH then 1 else 0
  {
    var p1: seq<nat>, p2: seq<nat>, p3: seq<nat> := [0], [0, 1], [0, 1, 2];
    CountAppend(p1, 1, x);
    CountAppend(p2, 2, x);
    CountAppend(p3, 3, x);
    assert p1 + [1] == p2 && p2 + [2] == p3 && p3 + [3] == [0, 1, 2, 3];
  }

  lemma InitialDistinct(s: State)
    requires Initial(s)
    ensures Distinct(s) && Accounted(s)
    ensures forall b: nat :: b < DEPTH ==> Owners(s, b) == 1
  {
    forall x: nat
      ensures Owners(s, x) == (if x < DEPTH then 1 else 0) && Places(s, x) == 0
    {
      IdleCallers(s.callers, Buffer, x);
      IdleCallers(s.callers, Call, x);
      FourBuffers(x);
    }
  }

  /** In every interleaving, no buffer is ever owned twice, and the frame of every call is in exactly one place: no
      frame is sent twice, and none vanishes. */
  lemma {:induction false} EveryRun(states: seq<State>, steps: seq<Step>, k: nat)
    requires IsRun(states, steps) && Initial(states[0]) && k <= |steps|
    ensures Distinct(states[k]) && Accounted(states[k])
  {
    if k == 0 {
      InitialDistinct(states[0]);
    } else {
      EveryRun(states, steps, k - 1);
      StepDistinct(states[k - 1], steps[k - 1]);
      StepAccounted(states[k - 1], steps[k - 1]);
    }
  }

  /** In every interleaving, no buffer sent to the pool or to the queue is refused for lack of room. */
  lemma NoSendFails(states: seq<State>, steps: seq<Step>, k: nat)
    requires IsRun(states, steps) && Initial(states[0]) && k < |steps|
    ensures steps[k].ReturnFailed? || (steps[k].Release? && states[k].active.Some?) ==> |states[k].pool| < DEPTH
    ensures steps[k].Enqueue? ==> |states[k].queue| < DEPTH
  {
    EveryRun(states, steps, k);
    SendSucceeds(states[k], steps[k]);
  }

  lemma StepOwners(s: State, step: Step, b: nat)
    requires Distinct(s) && Enabled(s, step)
    ensures Owners(Apply(s, step), b) + (if step.SetActive? then One(ActiveTag(s), b) else 0) == Owners(s, b)
  {
    if IsCallerStep(step) {
      CallerStepOwners(s, step, b);
    } else {
      TaskStepOwners(s, step, b);
    }
  }

  /** Each buffer has an owner. */
  predicate AllOwned(s: State) {
    forall b :: 0 <= b < DEPTH ==> Owners(s, b) == 1
  }

  /** Setting the active slot loses a buffer exactly if the slot was occupied; no other step does. */
  lemma StepLoses(s: State, step: Step)
    requires Distinct(s) && AllOwned(s) && Enabled(s, step)
    ensures AllOwned(Apply(s, step)) <==> (step.SetActive? ==> s.active.None?)
  {
    forall b: nat
      ensures Owners(Apply(s, step), b) + (if step.SetActive? then One(ActiveTag(s), b) else 0) == Owners(s, b)
    {
      StepOwners(s, step, b);
    }
    if step.SetActive? && s.active.Some? {
      var b := s.active.value;
      assert Owners(s, b) <= if b < DEPTH then 1 else 0;
    }
  }

  lemma {:induction false} OwnedUpTo(states: seq<State>, steps: seq<Step>, k: nat)
    requires IsRun(states, steps) && Initial(states[0]) && k <= |steps|
    requires forall j :: 0 <= j < k && steps[j].SetActive? ==> states[j].active.None?
    ensures AllOwned(states[k])
  {
    if k == 0 {
      InitialDistinct(states[0]);
    } else {
      OwnedUpTo(states, steps, k - 1);
      EveryRun(states, steps, k - 1);
      StepLoses(states[k - 1], steps[k - 1]);
    }
  }

  /** A run loses no buffer if and only if the driver never sets the active slot while it is occupied. */
  lemma LossExactly(states: seq<State>, steps: seq<Step>)
    requires IsRun(states, steps) && Initial(states[0])
    ensures (forall k :: 0 <= k < |states| ==> AllOwned(states[k]))
       <==> (forall k :: 0 <= k < |steps| && steps[k].SetActive? ==> states[k].active.None?)
  {
    if forall k :: 0 <= k < |steps| && steps[k].SetActive? ==> states[k].active.None? {
      forall k | 0 <= k < |states|
        ensures AllOwned(states[k])
      {
        OwnedUpTo(states, steps, k);
      }
    }
    if forall k :: 0 <= k < |states| ==> AllOwned(states[k]) {
      forall k | 0 <= k < |steps| && steps[k].SetActive?
        ensures states[k].active.None?
      {
        EveryRun(states, steps, k);
        assert AllOwned(states[k]) && AllOwned(states[k + 1]);
        StepLoses(states[k], steps[k]);
      }
    }
  }
}
