/** What holds as long as the driver task acts only on a SEND that has been issued. */
module EthTxToken {
  import opened EthTx
  import opened EthTxBuffers

  /** The SEND-done and the timeout branch are entered only while a SEND is outstanding. */
  predicate Honest(s: State, step: Step) {
    step == ReadStatus(true) || step == Timeout(true) ==> s.outstanding >= 1
  }

  function CallerHolds(pc: CallerPc): nat {
    if pc.Held? || pc.SawEmpty? || pc.GivingBack? then 1 else 0
  }

  function Holders(cs: seq<CallerPc>): nat {
    if cs == [] then 0 else CallerHolds(cs[0]) + Holders(cs[1..])
  }

  function TaskHolds(pc: TaskPc): nat {
    if pc.Took? || pc.Got? || pc.Failed? || pc.PuttingBack? || pc.Releasing? || pc.Returned? || pc.Giving? then 1 else 0
  }

  /** The transmitter is idle, or held, or busy with a SEND: the number of times one of these is the case. */
  function Tokens(s: State): nat {
    (if s.sem then 1 else 0) + Holders(s.callers) + TaskHolds(s.task) + s.outstanding
  }

  /** Exactly one of them is, and the active slot is in use only for a SEND that is outstanding or being finished. */
  predicate Clean(s: State) {
    && Tokens(s) == 1
    && (s.active.Some? ==> s.outstanding == 1 || s.task.Releasing? || s.task.Returned?)
    && (s.task.Started? ==> s.outstanding == 1 && s.active.None?)
  }

  lemma {:induction false} HoldersUpdate(cs: seq<CallerPc>, i: nat, pc: CallerPc)
    requires i < |cs|
    ensures Holders(cs[i := pc]) + CallerHolds(cs[i]) == Holders(cs) + CallerHolds(pc)
  {
    if i > 0 {
      HoldersUpdate(cs[1..], i - 1, pc);
      assert cs[i := pc][1..] == cs[1..][i - 1 := pc];
    } else {
      assert cs[i := pc][1..] == cs[1..];
    }
  }

  lemma HolderCounts(cs: seq<CallerPc>, i: nat)
    requires i < |cs|
    ensures Holders(cs) >= CallerHolds(cs[i])
  {
    HoldersUpdate(cs, i, Idle);
  }

  lemma CallerStepClean(s: State, step: Step)
    requires Clean(s) && Enabled(s, step) && IsCallerStep(step)
    ensures Clean(CallerStep(s, step))
  {
    var t := CallerStep(s, step);
    HolderCounts(s.callers, step.i);
    HoldersUpdate(s.callers, step.i, t.callers[step.i]);
    assert t.callers == s.callers[step.i := t.callers[step.i]];
  }

  lemma TaskStepClean(s: State, step: Step)
    requires Clean(s) && Enabled(s, step) && !IsCallerStep(step)
    ensures Clean(TaskStep(s, step)) <==> Honest(s, step)
  {
  }

  /** A step keeps the transmitter's states apart exactly if it is honest. */
  lemma StepClean(s: State, step: Step)
    requires Clean(s) && Enabled(s, step)
    ensures Clean(Apply(s, step)) <==> Honest(s, step)
  {
    if IsCallerStep(step) {
      CallerStepClean(s, step);
    } else {
      TaskStepClean(s, step);
    }
  }

  lemma {:induction false} NoHolders(cs: seq<CallerPc>)
    requires forall i :: 0 <= i < |cs| ==> cs[i] == Idle
    ensures Holders(cs) == 0
  {
    if cs != [] {
      NoHolders(cs[1..]);
    }
  }

  predicate HonestRun(states: seq<State>, steps: seq<Step>, n: nat)
    requires |states| == |steps| + 1
  {
    forall k :: 0 <= k < |steps| && k < n ==> Honest(states[k], steps[k])
  }

  lemma {:induction false} HonestRunClean(states: seq<State>, steps: seq<Step>, k: nat)
    requires IsRun(states, steps) && Initial(states[0]) && k <= |steps| && HonestRun(states, steps, k)
    ensures Clean(states[k])
  {
    if k == 0 {
      NoHolders(states[0].callers);
    } else {
      HonestRunClean(states, steps, k - 1);
      StepClean(states[k - 1], steps[k - 1]);
    }
  }

  /** A run keeps exactly one of idle, held and busy at all times if and only if the driver acts only on issued SENDs. */
  lemma CleanExactly(states: seq<State>, steps: seq<Step>)
    requires IsRun(states, steps) && Initial(states[0])
    ensures (forall k :: 0 <= k < |states| ==> Clean(states[k])) <==> HonestRun(states, steps, |steps|)
  {
    if HonestRun(states, steps, |steps|) {
      forall k | 0 <= k < |states|
        ensures Clean(states[k])
      {
        HonestRunClean(states, steps, k);
      }
    }
    if forall k :: 0 <= k < |states| ==> Clean(states[k]) {
      forall k | 0 <= k < |steps|
        ensures Honest(states[k], steps[k])
      {
        assert Clean(states[k + 1]);
        StepClean(states[k], steps[k]);
      }
    }
  }

  /** At most one SEND is outstanding, and an idle transmitter has none and no active buffer. */
  lemma CleanMeans(s: State)
    requires Clean(s)
    ensures s.outstanding <= 1
    ensures s.sem ==> s.outstanding == 0 && s.active.None?
  {
  }

  /** In particular no honest run loses a buffer: the slot is free whenever the driver sets it. */
  lemma NoBufferLost(states: seq<State>, steps: seq<Step>)
    requires IsRun(states, steps) && Initial(states[0]) && HonestRun(states, steps, |steps|)
    ensures forall k :: 0 <= k < |states| ==> AllOwned(states[k])
  {
    forall k | 0 <= k < |steps| && steps[k].SetActive?
      ensures states[k].active.None?
    {
      HonestRunClean(states, steps, k);
    }
    LossExactly(states, steps);
  }
}
