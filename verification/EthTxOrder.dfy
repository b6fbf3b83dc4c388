/** The order in which frames are started. */
module EthTxOrder {
  import opened EthTx
  import opened EthTxBuffers
  import opened EthTxToken

  predicate AllSettled(s: State, xs: set<nat>) {
    forall x :: x in xs ==> Settled(s, x)
  }

  /** `x` was started before the `i`-th started frame, or dropped. */
  predicate Earlier(s: State, i: nat, x: nat)
    requires i <= |s.started|
  {
    x in s.dropped || x in s.started[..i]
  }

  predicate Ahead(s: State, i: nat, x: nat)
    requires i <= |s.queue|
  {
    Settled(s, x) || x in InHand(s) || exists j :: 0 <= j < i && s.queue[j].id == x
  }

  predicate StartedInOrder(s: State) {
    forall i :: 0 <= i < |s.started| ==>
      s.started[i] < |s.before| && forall x :: x in s.before[s.started[i]] ==> Earlier(s, i, x)
  }

  predicate QueuedInOrder(s: State) {
    forall i :: 0 <= i < |s.queue| ==>
      s.queue[i].id < |s.before| && forall x :: x in s.before[s.queue[i].id] ==> Ahead(s, i, x)
  }

  predicate HandInOrder(s: State) {
    s.task.Got? ==> s.task.frame.id < |s.before| && AllSettled(s, s.before[s.task.frame.id])
  }

  predicate CallerInOrder(s: State, pc: CallerPc) {
    pc.Idle? || pc.Stamping? || (pc.id < |s.before| && s.before[pc.id] <= Handed(s))
  }

  /** Whatever was handed over before a call began is started, dropped, or ahead of the call's own frame. */
  predicate Arranged(s: State) {
    && QueuedInOrder(s) && HandInOrder(s)
    && forall i :: 0 <= i < |s.callers| ==> CallerInOrder(s, s.callers[i])
  }

  /** What is handed over stays so, what is settled stays so, and the records of finished calls do not change. */
  predicate Grows(s: State, t: State) {
    && s.before <= t.before && Handed(s) <= Handed(t) && s.started <= t.started && s.dropped <= t.dropped
  }

  lemma InHanded(s: State, x: nat)
    ensures x in Handed(s) <==> Settled(s, x) || x in InHand(s) || exists j :: 0 <= j < |s.queue| && s.queue[j].id == x
  {
  }

  lemma StepGrows(s: State, step: Step)
    requires Distinct(s) && Enabled(s, step)
    ensures Grows(s, Apply(s, step))
  {
    var t := Apply(s, step);
    forall x | x in Handed(s)
      ensures x in Handed(t)
    {
      InHanded(s, x);
      InHanded(t, x);
      if j :| 0 <= j < |s.queue| && s.queue[j].id == x {
        if step.Receive? && j > 0 {
          assert t.queue[j - 1] == s.queue[j];
        } else if !step.Receive? {
          assert t.queue[j] == s.queue[j];
        }
      }
    }
  }

  lemma CallersInOrder(s: State, step: Step, t: State)
    requires Arranged(s) && Enabled(s, step) && t == Apply(s, step) && Grows(s, t)
    ensures forall i :: 0 <= i < |t.callers| ==> CallerInOrder(t, t.callers[i])
  {
    forall i | 0 <= i < |t.callers|
      ensures CallerInOrder(t, t.callers[i])
    {
      assert CallerInOrder(s, s.callers[i]);
      if IsCallerStep(step) && i == step.i {
        CallerMoves(s, step, t);
      }
    }
  }

  lemma CallerMoves(s: State, step: Step, t: State)
    requires Enabled(s, step) && IsCallerStep(step) && t == CallerStep(s, step) && Grows(s, t)
    requires CallerInOrder(s, s.callers[step.i])
    ensures CallerInOrder(t, t.callers[step.i])
  {
  }

  lemma CallerStepQueued(s: State, step: Step)
    requires Distinct(s) && Arranged(s) && Enabled(s, step) && IsCallerStep(step)
    ensures QueuedInOrder(CallerStep(s, step)) && HandInOrder(CallerStep(s, step))
  {
    var t := CallerStep(s, step);
    assert CallerInOrder(s, s.callers[step.i]);
    forall i | 0 <= i < |t.queue|
      ensures t.queue[i].id < |t.before|
      ensures forall x :: x in t.before[t.queue[i].id] ==> Ahead(t, i, x)
    {
      if i < |s.queue| {
        assert t.queue[i] == s.queue[i];
        forall x | x in t.before[t.queue[i].id]
          ensures Ahead(t, i, x)
        {
          assert Ahead(s, i, x);
          if j :| 0 <= j < i && s.queue[j].id == x {
            assert t.queue[j].id == x;
          }
        }
      } else {
        forall x | x in t.before[t.queue[i].id]
          ensures Ahead(t, i, x)
        {
          InHanded(s, x);
          if j :| 0 <= j < |s.queue| && s.queue[j].id == x {
            assert t.queue[j].id == x;
          }
        }
      }
    }
  }

  /** A frame of the queue that moves up by `d` places, while what was in front of it is handed on, keeps its order. */
  lemma MovesUp(s: State, t: State, i: nat, d: nat)
    requires QueuedInOrder(s) && i < |t.queue| && d <= 1 && i + d < |s.queue| && t.before == s.before
    requires forall j :: 0 <= j < |t.queue| && j + d < |s.queue| ==> t.queue[j] == s.queue[j + d]
    requires forall x :: Settled(s, x) || x in InHand(s) || (d == 1 && x == s.queue[0].id) ==> Settled(t, x) || x in InHand(t)
    ensures t.queue[i].id < |t.before| && forall x :: x in t.before[t.queue[i].id] ==> Ahead(t, i, x)
  {
    forall x | x in t.before[t.queue[i].id]
      ensures Ahead(t, i, x)
    {
      assert Ahead(s, i + d, x);
      if j :| 0 <= j < i + d && s.queue[j].id == x {
        if j >= d {
          assert t.queue[j - d].id == x;
        }
      }
    }
  }

  lemma ReceiveQueued(s: State, t: State)
    requires Arranged(s) && Enabled(s, Receive) && s.queue != [] && t == TaskStep(s, Receive)
    ensures QueuedInOrder(t) && HandInOrder(t)
  {
    forall i | 0 <= i < |t.queue|
      ensures t.queue[i].id < |t.before| && forall x :: x in t.before[t.queue[i].id] ==> Ahead(t, i, x)
    {
      MovesUp(s, t, i, 1);
    }
    forall x | x in t.before[t.task.frame.id]
      ensures Settled(t, x)
    {
      assert Ahead(s, 0, x);
    }
  }

  lemma HandedOn(s: State, step: Step, t: State, x: nat)
    requires Enabled(s, step) && !IsCallerStep(step) && t == TaskStep(s, step) && t.queue == s.queue
    requires Settled(s, x) || x in InHand(s)
    ensures Settled(t, x) || x in InHand(t)
  {
  }

  lemma StaysQueued(s: State, step: Step, t: State)
    requires Arranged(s) && Enabled(s, step) && !IsCallerStep(step) && t == TaskStep(s, step) && t.queue == s.queue
    ensures QueuedInOrder(t)
  {
    forall x | Settled(s, x) || x in InHand(s)
      ensures Settled(t, x) || x in InHand(t)
    {
      HandedOn(s, step, t, x);
    }
    UnmovedQueued(s, t);
  }

  lemma UnmovedQueued(s: State, t: State)
    requires QueuedInOrder(s) && t.queue == s.queue && t.before == s.before
    requires forall x :: Settled(s, x) || x in InHand(s) ==> Settled(t, x) || x in InHand(t)
    ensures QueuedInOrder(t)
  {
    forall i | 0 <= i < |t.queue|
      ensures t.queue[i].id < |t.before| && forall x :: x in t.before[t.queue[i].id] ==> Ahead(t, i, x)
    {
      MovesUp(s, t, i, 0);
    }
  }

  lemma TaskStepQueued(s: State, step: Step)
    requires Arranged(s) && Enabled(s, step) && !IsCallerStep(step)
    ensures QueuedInOrder(TaskStep(s, step)) && HandInOrder(TaskStep(s, step))
  {
    if step.Receive? && s.queue != [] {
      ReceiveQueued(s, TaskStep(s, step));
    } else {
      StaysQueued(s, step, TaskStep(s, step));
    }
  }

  lemma StepArranged(s: State, step: Step)
    requires Distinct(s) && Arranged(s) && Enabled(s, step)
    ensures Arranged(Apply(s, step))
  {
    StepGrows(s, step);
    CallersInOrder(s, step, Apply(s, step));
    if IsCallerStep(step) {
      CallerStepQueued(s, step);
    } else {
      TaskStepQueued(s, step);
    }
  }

  /** In every interleaving the queue keeps the order of the calls. */
  lemma {:induction false} EveryRunArranged(states: seq<State>, steps: seq<Step>, k: nat)
    requires IsRun(states, steps) && Initial(states[0]) && k <= |steps|
    ensures Arranged(states[k])
  {
    if k > 0 {
      EveryRunArranged(states, steps, k - 1);
      EveryRun(states, steps, k - 1);
      StepArranged(states[k - 1], steps[k - 1]);
    }
  }

  /** A frame starts inline although one that had been handed over before its call began still waits, in the queue or in
      the driver's hand. */
  predicate Overtakes(s: State, step: Step)
    requires Enabled(s, step)
  {
    step.StartInline? && step.ok &&
    exists x :: x in Ids(s.queue) + InHand(s) && s.callers[step.i].id < |s.before| && x in s.before[s.callers[step.i].id]
  }

  lemma {:induction false} CountMembers(xs: seq<nat>, i: nat, x: nat)
    requires i < |xs| && xs[i] == x
    ensures Count(xs, x) >= 1 + Count(xs[..i], x)
  {
    if i > 0 {
      CountMembers(xs[1..], i - 1, x);
      assert xs[..i][1..] == xs[1..][..i - 1];
    }
  }

  lemma {:induction false} QueueIdCounts(q: seq<Frame>, x: nat)
    ensures x in Ids(q) <==> QueueCount(q, Call, x) > 0
  {
    if q != [] {
      QueueIdCounts(q[1..], x);
      assert q == [q[0]] + q[1..];
    }
  }

  lemma Counted(xs: seq<nat>, x: nat)
    requires x in xs
    ensures Count(xs, x) >= 1
  {
    var m :| 0 <= m < |xs| && xs[m] == x;
    CountMembers(xs, m, x);
  }

  /** A frame is not both settled and waiting. */
  lemma SettledOrWaiting(s: State, x: nat)
    requires Accounted(s)
    ensures Settled(s, x) ==> x !in Ids(s.queue) && x !in InHand(s)
    ensures x in Handed(s) ==> (Settled(s, x) <==> x !in Ids(s.queue) + InHand(s))
  {
    assert Places(s, x) <= 1;
    QueueIdCounts(s.queue, x);
    if x in s.started {
      Counted(s.started, x);
    }
    if x in s.dropped {
      Counted(s.dropped, x);
    }
  }

  lemma InlineSettled(s: State, step: Step)
    requires Accounted(s) && Arranged(s) && Enabled(s, step) && step.StartInline? && step.ok
    ensures s.callers[step.i].id < |s.before|
    ensures AllSettled(s, s.before[s.callers[step.i].id]) <==> !Overtakes(s, step)
  {
    assert CallerInOrder(s, s.callers[step.i]);
    var earlier := s.before[s.callers[step.i].id];
    forall x | x in earlier
      ensures Settled(s, x) <==> x !in Ids(s.queue) + InHand(s)
    {
      SettledOrWaiting(s, x);
    }
  }

  lemma OldStartedInOrder(s: State, t: State, i: nat)
    requires StartedInOrder(s) && Grows(s, t) && i < |s.started|
    ensures t.started[i] < |t.before| && forall x :: x in t.before[t.started[i]] ==> Earlier(t, i, x)
  {
    assert t.started[..i] == s.started[..i];
  }

  /** The only step that can break the order of the started frames is an inline start that overtakes. */
  lemma StepStarted(s: State, step: Step)
    requires Distinct(s) && Accounted(s) && Arranged(s) && StartedInOrder(s) && Enabled(s, step)
    ensures StartedInOrder(Apply(s, step)) <==> !Overtakes(s, step)
  {
    var t, n := Apply(s, step), |s.started|;
    StepGrows(s, step);
    forall i | 0 <= i < n
      ensures t.started[i] < |t.before| && forall x :: x in t.before[t.started[i]] ==> Earlier(t, i, x)
    {
      OldStartedInOrder(s, t, i);
    }
    if step.StartInline? && step.ok {
      InlineSettled(s, step);
      var y := s.callers[step.i].id;
      NewStarted(s, t, y);
      assert t.started[n] == y && |t.started| == n + 1;
    } else if |t.started| > n {
      NewStarted(s, t, s.task.frame.id);
    }
  }

  lemma NewStarted(s: State, t: State, y: nat)
    requires t.started == s.started + [y] && t.dropped == s.dropped && t.before == s.before && y < |s.before|
    ensures (forall x :: x in t.before[y] ==> Earlier(t, |s.started|, x)) <==> AllSettled(s, s.before[y])
  {
    assert t.started[..|s.started|] == s.started;
  }

  lemma {:induction false} OrderUpTo(states: seq<State>, steps: seq<Step>, k: nat)
    requires IsRun(states, steps) && Initial(states[0]) && k <= |steps|
    requires forall j :: 0 <= j < k ==> !Overtakes(states[j], steps[j])
    ensures StartedInOrder(states[k])
  {
    if k > 0 {
      OrderUpTo(states, steps, k - 1);
      EveryRun(states, steps, k - 1);
      EveryRunArranged(states, steps, k - 1);
      StepStarted(states[k - 1], steps[k - 1]);
    }
  }

  /** A run starts its frames in call order if and only if no inline start overtakes a waiting frame. */
  lemma OrderExactly(states: seq<State>, steps: seq<Step>)
    requires IsRun(states, steps) && Initial(states[0])
    ensures (forall k :: 0 <= k < |states| ==> StartedInOrder(states[k]))
       <==> (forall k :: 0 <= k < |steps| ==> !Overtakes(states[k], steps[k]))
  {
    if forall k :: 0 <= k < |steps| ==> !Overtakes(states[k], steps[k]) {
      forall k | 0 <= k < |states|
        ensures StartedInOrder(states[k])
      {
        OrderUpTo(states, steps, k);
      }
    }
    if forall k :: 0 <= k < |states| ==> StartedInOrder(states[k]) {
      forall k | 0 <= k < |steps|
        ensures !Overtakes(states[k], steps[k])
      {
        EveryRun(states, steps, k);
        EveryRunArranged(states, steps, k);
        assert StartedInOrder(states[k]) && StartedInOrder(states[k + 1]);
        StepStarted(states[k], steps[k]);
      }
    }
  }

  /** A caller that has found the queue empty has nothing in front of it. */
  predicate Checked(s: State) {
    forall i :: 0 <= i < |s.callers| && s.callers[i].SawEmpty? ==>
      s.callers[i].id < |s.before| && AllSettled(s, s.before[s.callers[i].id])
  }

  lemma StepChecked(s: State, step: Step)
    requires Clean(s) && Distinct(s) && Arranged(s) && Checked(s) && Enabled(s, step)
    ensures Checked(Apply(s, step))
  {
    StepGrows(s, step);
    if step.LookAtQueue? {
      LookChecked(s, step);
    } else {
      OthersChecked(s, step, Apply(s, step));
    }
  }

  /** The look at the queue: the caller holds the semaphore, so the driver's hand is empty. */
  lemma LookChecked(s: State, step: Step)
    requires Clean(s) && Arranged(s) && Checked(s) && Enabled(s, step) && step.LookAtQueue?
    ensures Checked(Apply(s, step))
  {
    assert CallerInOrder(s, s.callers[step.i]);
    HolderCounts(s.callers, step.i);
    if s.queue == [] {
      forall x | x in Handed(s)
        ensures Settled(s, x)
      {
        InHanded(s, x);
      }
    }
  }

  lemma OthersChecked(s: State, step: Step, t: State)
    requires Checked(s) && Enabled(s, step) && !step.LookAtQueue? && t == Apply(s, step) && Grows(s, t)
    ensures Checked(t)
  {
    forall i | 0 <= i < |t.callers| && t.callers[i].SawEmpty?
      ensures t.callers[i].id < |t.before| && AllSettled(t, t.before[t.callers[i].id])
    {
      assert t.callers[i] == s.callers[i];
    }
  }

  lemma {:induction false} HonestRunChecked(states: seq<State>, steps: seq<Step>, k: nat)
    requires IsRun(states, steps) && Initial(states[0]) && k <= |steps| && HonestRun(states, steps, k)
    ensures Checked(states[k])
  {
    if k > 0 {
      HonestRunChecked(states, steps, k - 1);
      HonestRunClean(states, steps, k - 1);
      EveryRun(states, steps, k - 1);
      EveryRunArranged(states, steps, k - 1);
      StepChecked(states[k - 1], steps[k - 1]);
    }
  }

  lemma HonestRunOrdered(states: seq<State>, steps: seq<Step>, k: nat)
    requires IsRun(states, steps) && Initial(states[0]) && k <= |steps| && HonestRun(states, steps, k)
    ensures StartedInOrder(states[k])
  {
    forall j | 0 <= j < k
      ensures !Overtakes(states[j], steps[j])
    {
      HonestRunChecked(states, steps, j);
      EveryRun(states, steps, j);
      EveryRunArranged(states, steps, j);
      if steps[j].StartInline? && steps[j].ok {
        InlineSettled(states[j], steps[j]);
      }
    }
    OrderUpTo(states, steps, k);
  }

  /** In an honest run, frames are started in the order of their calls, inline or queued: a frame that had been handed
      over before another's call began never has its SEND issued after the other's. */
  lemma StartedInCallOrder(states: seq<State>, steps: seq<Step>, k: nat, i: nat, j: nat)
    requires IsRun(states, steps) && Initial(states[0]) && k <= |steps| && HonestRun(states, steps, k)
    requires i < j < |states[k].started|
    ensures states[k].started[i] < |states[k].before|
    ensures states[k].started[j] !in states[k].before[states[k].started[i]]
  {
    var s := states[k];
    HonestRunOrdered(states, steps, k);
    EveryRun(states, steps, k);
    var x := s.started[j];
    if x in s.before[s.started[i]] {
      assert Earlier(s, i, x);
      assert Places(s, x) <= 1;
      CountMembers(s.started, j, x);
      if x in s.dropped {
        var m :| 0 <= m < |s.dropped| && s.dropped[m] == x;
        CountMembers(s.dropped, m, x);
      } else {
        var m :| 0 <= m < i && s.started[m] == x;
        CountMembers(s.started[..j], m, x);
      }
    }
  }
}
