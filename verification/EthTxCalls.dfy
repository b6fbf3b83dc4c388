/** What a call and a turn of the driver do when nothing comes between their steps, and that both end. */
module EthTxCalls {
  import opened Wrappers
  import opened EthTx

  /** The steps can be taken one after the other from `s`, and lead to `t`. */
  predicate Leads(s: State, steps: seq<Step>, t: State)
    decreases |steps|
  {
    if steps == [] then s == t else Enabled(s, steps[0]) && Leads(Apply(s, steps[0]), steps[1..], t)
  }

  lemma LeadsBy(s: State, step: Step, s1: State, rest: seq<Step>, t: State, steps: seq<Step>)
    requires Enabled(s, step) && s1 == Apply(s, step) && Leads(s1, rest, t) && steps == [step] + rest
    ensures Leads(s, steps, t)
  {
    assert steps[0] == step && steps[1..] == rest;
  }

  // ----- calls -----

  /** How many steps a caller still takes at most. */
  function CallRank(pc: CallerPc): nat {
    match pc
    case Idle => 0
    case Stamping => 1
    case HasBuf(_, _) => 1
    case WantBuf(_) => 2
    case GivingBack(_) => 3
    case SawEmpty(_) => 4
    case Held(_) => 5
    case Ready(_) => 6
  }

  /** Every step of a call brings it nearer to its end and leaves the other calls alone. */
  lemma CallEnds(s: State, step: Step)
    requires Enabled(s, step) && IsCallerStep(step) && !step.Begin?
    ensures CallRank(Apply(s, step).callers[step.i]) < CallRank(s.callers[step.i])
    ensures Apply(s, step).callers == s.callers[step.i := Apply(s, step).callers[step.i]]
  {
  }

  /** And a call that has begun can always go on; it never waits for another. */
  lemma CallGoesOn(s: State, i: nat)
    requires i < |s.callers| && s.callers[i] != Idle
    ensures exists step :: Enabled(s, step) && IsCallerStep(step) && !step.Begin? && step.i == i
  {
    var step := match s.callers[i] {
      case Ready(_) => SkipInline(i)
      case Held(_) => LookAtQueue(i)
      case SawEmpty(_) => StartInline(i, true)
      case Stamping => Stamp(i)
      case GivingBack(_) => GiveBack(i)
      case WantBuf(_) => if s.pool == [] then PoolEmpty(i) else TakeBuf(i)
      case _ => Enqueue(i)
    };
    assert Enabled(s, step);
  }

  /** An inline call on an idle transmitter with nothing queued: its SEND is issued, and no buffer is used. */
  lemma InlineCall(s: State, i: nat, id: nat)
    requires i < |s.callers| && s.callers[i] == Ready(id) && s.sem && s.queue == []
    ensures Leads(s, [TryInline(i), LookAtQueue(i), StartInline(i, true), Stamp(i)],
                  s.(callers := s.callers[i := Idle], sem := false, outstanding := s.outstanding + 1, started := s.started + [id]))
  {
    var cs := s.callers;
    var t := s.(callers := cs[i := Idle], sem := false, outstanding := s.outstanding + 1, started := s.started + [id]);
    var s1 := s.(callers := cs[i := Held(id)], sem := false);
    var s2 := s1.(callers := cs[i := SawEmpty(id)]);
    var s3 := t.(callers := cs[i := Stamping]);
    assert Leads(t, [], t);
    LeadsBy(s3, Stamp(i), t, [], t, [Stamp(i)]);
    LeadsBy(s2, StartInline(i, true), s3, [Stamp(i)], t, [StartInline(i, true), Stamp(i)]);
    LeadsBy(s1, LookAtQueue(i), s2, [StartInline(i, true), Stamp(i)], t, [LookAtQueue(i), StartInline(i, true), Stamp(i)]);
    LeadsBy(s, TryInline(i), s1, [LookAtQueue(i), StartInline(i, true), Stamp(i)], t,
            [TryInline(i), LookAtQueue(i), StartInline(i, true), Stamp(i)]);
  }

  /** An inline call that finds something queued gives the semaphore back and goes on to the queue. */
  lemma InlineGivesWay(s: State, i: nat, id: nat)
    requires i < |s.callers| && s.callers[i] == Ready(id) && s.sem && s.queue != []
    ensures Leads(s, [TryInline(i), LookAtQueue(i), GiveBack(i)], s.(callers := s.callers[i := WantBuf(id)]))
  {
    var cs, t := s.callers, s.(callers := s.callers[i := WantBuf(id)]);
    var s1 := s.(callers := cs[i := Held(id)], sem := false);
    var s2 := s1.(callers := cs[i := GivingBack(id)]);
    assert Leads(t, [], t);
    LeadsBy(s2, GiveBack(i), t, [], t, [GiveBack(i)]);
    LeadsBy(s1, LookAtQueue(i), s2, [GiveBack(i)], t, [LookAtQueue(i), GiveBack(i)]);
    LeadsBy(s, TryInline(i), s1, [LookAtQueue(i), GiveBack(i)], t, [TryInline(i), LookAtQueue(i), GiveBack(i)]);
  }

  /** And so does one whose start fails. */
  lemma InlineFails(s: State, i: nat, id: nat)
    requires i < |s.callers| && s.callers[i] == SawEmpty(id) && !s.sem
    ensures Leads(s, [StartInline(i, false), GiveBack(i)], s.(callers := s.callers[i := WantBuf(id)], sem := true))
  {
    var t := s.(callers := s.callers[i := WantBuf(id)], sem := true);
    var s1 := s.(callers := s.callers[i := GivingBack(id)]);
    assert Leads(t, [], t);
    LeadsBy(s1, GiveBack(i), t, [], t, [GiveBack(i)]);
    LeadsBy(s, StartInline(i, false), s1, [GiveBack(i)], t, [StartInline(i, false), GiveBack(i)]);
  }

  /** A queued call moves the first buffer of the pool to the end of the queue, with its frame. */
  lemma QueuedCall(s: State, i: nat, id: nat)
    requires i < |s.callers| && s.callers[i] == WantBuf(id) && s.pool != [] && |s.queue| < 4
    ensures Leads(s, [TakeBuf(i), Enqueue(i)],
                  s.(callers := s.callers[i := Idle], pool := s.pool[1..], queue := s.queue + [Frame(s.pool[0], id)]))
  {
    var b := s.pool[0];
    var t := s.(callers := s.callers[i := Idle], pool := s.pool[1..], queue := s.queue + [Frame(b, id)]);
    var s1 := s.(callers := s.callers[i := HasBuf(id, b)], pool := s.pool[1..]);
    assert Leads(t, [], t);
    LeadsBy(s1, Enqueue(i), t, [], t, [Enqueue(i)]);
    LeadsBy(s, TakeBuf(i), s1, [Enqueue(i)], t, [TakeBuf(i), Enqueue(i)]);
  }

  /** Without a buffer the frame is dropped and the call ends. */
  lemma DroppedCall(s: State, i: nat, id: nat)
    requires i < |s.callers| && s.callers[i] == WantBuf(id) && s.pool == []
    ensures Leads(s, [PoolEmpty(i)], s.(callers := s.callers[i := Idle], dropped := s.dropped + [id]))
  {
    var t := s.(callers := s.callers[i := Idle], dropped := s.dropped + [id]);
    assert Leads(t, [], t);
    LeadsBy(s, PoolEmpty(i), t, [], t, [PoolEmpty(i)]);
  }

  // ----- the driver -----

  /** How many steps the driver still takes at most in this turn. */
  function DriverRank(pc: TaskPc): nat {
    match pc
    case Loop => 0
    case PuttingBack => 1
    case Started(_) => 1
    case Failed(_) => 2
    case Got(_) => 3
    case Took => 4
    case TryTake => 5
    case Giving(late) => if late then 6 else 10
    case Returned(late) => if late then 7 else 11
    case Releasing(late) => if late then 8 else 12
    case CheckTimeout => 9
  }

  /** A turn of the driver always ends, and never waits for anything in between. */
  lemma TurnEnds(s: State)
    requires s.task != Loop
    ensures forall step :: Enabled(s, step) && !IsCallerStep(step) ==> DriverRank(Apply(s, step).task) < DriverRank(s.task)
    ensures exists step :: Enabled(s, step) && !IsCallerStep(step)
  {
    var step := match s.task {
      case Releasing(_) => Release
      case Returned(_) => ClearActive
      case Giving(_) => Give
      case CheckTimeout => Timeout(false)
      case TryTake => Take
      case Took => Receive
      case Got(_) => StartQueued(true)
      case Started(_) => SetActive
      case Failed(_) => ReturnFailed
      case _ => PutBack
    };
    assert Enabled(s, step) && !IsCallerStep(step);
  }

  lemma HandStarted(s: State, t: State)
    requires s.task.Got?
    requires t == s.(task := Loop, active := Some(s.task.frame.data), outstanding := s.outstanding + 1,
                     started := s.started + [s.task.frame.id])
    ensures Leads(s, [StartQueued(true), SetActive], t)
  {
    var s1 := t.(task := EthTx.Started(s.task.frame.data), active := s.active);
    assert Leads(t, [], t);
    LeadsBy(s1, SetActive, t, [], t, [SetActive]);
    LeadsBy(s, StartQueued(true), s1, [SetActive], t, [StartQueued(true), SetActive]);
  }

  /** On an idle transmitter the frame at the head of the queue is sent, and its buffer is the active one. */
  lemma QueueServed(s: State, t: State)
    requires s.task == TryTake && s.sem && s.queue != []
    requires t == s.(task := Loop, sem := false, queue := s.queue[1..], active := Some(s.queue[0].data),
                     outstanding := s.outstanding + 1, started := s.started + [s.queue[0].id])
    ensures Leads(s, [Take, Receive, StartQueued(true), SetActive], t)
  {
    var s1 := s.(task := Took, sem := false);
    var s2 := s1.(task := Got(s.queue[0]), queue := s.queue[1..]);
    var last := [StartQueued(true), SetActive];
    HandStarted(s2, t);
    LeadsBy(s1, Receive, s2, last, t, [Receive] + last);
    LeadsBy(s, Take, s1, [Receive] + last, t, [Take, Receive, StartQueued(true), SetActive]);
  }

  /** When its start fails the frame is dropped, and buffer and semaphore are given back. */
  lemma StartFails(s: State)
    requires s.task.Got? && |s.pool| < 4 && !s.sem
    ensures Leads(s, [StartQueued(false), ReturnFailed, PutBack],
                  s.(task := Loop, sem := true, pool := s.pool + [s.task.frame.data], dropped := s.dropped + [s.task.frame.id]))
  {
    var f := s.task.frame;
    var t := s.(task := Loop, sem := true, pool := s.pool + [f.data], dropped := s.dropped + [f.id]);
    var s1 := s.(task := Failed(f.data), dropped := s.dropped + [f.id]);
    var s2 := s1.(task := PuttingBack, pool := s.pool + [f.data]);
    assert Leads(t, [], t);
    LeadsBy(s2, PutBack, t, [], t, [PutBack]);
    LeadsBy(s1, ReturnFailed, s2, [PutBack], t, [ReturnFailed, PutBack]);
    LeadsBy(s, StartQueued(false), s1, [ReturnFailed, PutBack], t, [StartQueued(false), ReturnFailed, PutBack]);
  }

  /** With an empty queue the turn changes nothing. */
  lemma NothingToSend(s: State)
    requires s.task == TryTake && s.sem && s.queue == []
    ensures Leads(s, [Take, Receive, PutBack], s.(task := Loop))
  {
    var t, s1, s2 := s.(task := Loop), s.(task := Took, sem := false), s.(task := PuttingBack, sem := false);
    assert Leads(t, [], t);
    LeadsBy(s2, PutBack, t, [], t, [PutBack]);
    LeadsBy(s1, Receive, s2, [PutBack], t, [Receive, PutBack]);
    LeadsBy(s, Take, s1, [Receive, PutBack], t, [Take, Receive, PutBack]);
  }

  /** A finished SEND of a queued frame, or one that is given up, returns the buffer and makes the transmitter idle. */
  lemma BufferReturned(s: State, late: bool)
    requires s.task == Releasing(late) && s.active.Some? && |s.pool| < 4
    ensures Leads(s, [Release, ClearActive, Give],
                  s.(task := if late then TryTake else CheckTimeout, pool := s.pool + [s.active.value], active := None, sem := true))
  {
    var t := s.(task := if late then TryTake else CheckTimeout, pool := s.pool + [s.active.value], active := None, sem := true);
    var s1 := s.(task := Returned(late), pool := s.pool + [s.active.value]);
    var s2 := s1.(task := Giving(late), active := None);
    assert Leads(t, [], t);
    LeadsBy(s2, Give, t, [], t, [Give]);
    LeadsBy(s1, ClearActive, s2, [Give], t, [ClearActive, Give]);
    LeadsBy(s, Release, s1, [ClearActive, Give], t, [Release, ClearActive, Give]);
  }

  /** That of an inline frame only makes it idle. */
  lemma InlineDone(s: State, late: bool)
    requires s.task == Releasing(late) && s.active.None?
    ensures Leads(s, [Release, Give], s.(task := if late then TryTake else CheckTimeout, sem := true))
  {
    var t := s.(task := if late then TryTake else CheckTimeout, sem := true);
    var s1 := s.(task := Giving(late));
    assert Leads(t, [], t);
    LeadsBy(s1, Give, t, [], t, [Give]);
    LeadsBy(s, Release, s1, [Give], t, [Release, Give]);
  }

  /** The two branches are entered by a finished SEND and by a time-out; each takes one SEND off the outstanding ones. */
  lemma BranchEntered(s: State)
    ensures s.task == Loop ==> Leads(s, [ReadStatus(true)],
              s.(task := Releasing(false), outstanding := if s.outstanding > 0 then s.outstanding - 1 else 0))
    ensures s.task == CheckTimeout && !s.sem ==> Leads(s, [Timeout(true)],
              s.(task := Releasing(true), outstanding := if s.outstanding > 0 then s.outstanding - 1 else 0))
  {
    var n := if s.outstanding > 0 then s.outstanding - 1 else 0;
    var t, u := s.(task := Releasing(false), outstanding := n), s.(task := Releasing(true), outstanding := n);
    assert Leads(t, [], t) && Leads(u, [], u);
    if s.task == Loop {
      LeadsBy(s, ReadStatus(true), t, [], t, [ReadStatus(true)]);
    } else if s.task == CheckTimeout && !s.sem {
      LeadsBy(s, Timeout(true), u, [], u, [Timeout(true)]);
    }
  }
}
