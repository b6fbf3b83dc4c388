/** Runs in which the start time of an old SEND makes the driver time out while a caller has taken the semaphore but
    not issued its SEND: two SENDs become outstanding and a pool buffer is lost, or a frame is overtaken. */
module EthTxLoss {
  import opened Wrappers
  import opened EthTx
  import opened EthTxBuffers

  ghost predicate Reachable(t: State) {
    exists states: seq<State>, steps: seq<Step> ::
      IsRun(states, steps) && Initial(states[0]) && states[|steps|] == t
  }

  lemma ReachableNext(s: State, step: Step, t: State)
    requires Reachable(s) && Enabled(s, step) && t == Apply(s, step)
    ensures Reachable(t)
  {
    var states: seq<State>, steps: seq<Step> :| IsRun(states, steps) && Initial(states[0]) && states[|steps|] == s;
    var states', steps' := states + [t], steps + [step];
    forall k | 0 <= k < |steps'|
      ensures Enabled(states'[k], steps'[k]) && states'[k + 1] == Apply(states'[k], steps'[k])
    {
      if k == |steps| {
        assert states'[k] == s && steps'[k] == step && states'[k + 1] == t;
      } else {
        assert states'[k] == states[k] && steps'[k] == steps[k] && states'[k + 1] == states[k + 1];
      }
    }
    assert IsRun(states', steps') && states'[|steps'|] == t && states'[0] == states[0];
  }

  /** The first caller has `pc`, the second is idle and has sent nothing yet. */
  function Begun(sem: bool, first: CallerPc, second: CallerPc, before: seq<set<nat>>): State {
    State([0, 1, 2, 3], [], None, sem, [first, second], Loop, 0, [], [], before)
  }

  lemma FirstHolds()
    ensures Reachable(Begun(false, Held(0), Idle, [{}]))
  {
    var s0 := Begun(true, Idle, Idle, []);
    var states: seq<State>, steps: seq<Step> := [s0], [];
    assert IsRun(states, steps) && states[|steps|] == s0;
    var s1 := Begun(true, Ready(0), Idle, [{}]);
    assert Handed(s0) == {};
    ReachableNext(s0, Begin(0), s1);
    ReachableNext(s1, TryInline(0), Begun(false, Held(0), Idle, [{}]));
  }

  /** The second caller queues the next frame in the next buffer. */
  lemma SecondQueues(s: State, t: State)
    requires Reachable(s) && |s.callers| == 2 && s.callers[1] == Idle && s.pool != [] && |s.queue| < DEPTH
    requires t == s.(pool := s.pool[1..], queue := s.queue + [Frame(s.pool[0], |s.before|)],
                     before := s.before + [Handed(s)])
    ensures Reachable(t)
  {
    var id, b := |s.before|, s.pool[0];
    var s1 := s.(callers := s.callers[1 := Ready(id)], before := s.before + [Handed(s)]);
    ReachableNext(s, Begin(1), s1);
    var s2 := s1.(callers := s.callers[1 := WantBuf(id)]);
    ReachableNext(s1, SkipInline(1), s2);
    var s3 := s2.(callers := s.callers[1 := HasBuf(id, b)], pool := s.pool[1..]);
    ReachableNext(s2, TakeBuf(1), s3);
    assert s3.callers[1 := Idle] == s.callers;
    ReachableNext(s3, Enqueue(1), t);
  }

  function Queued(sem: bool, first: CallerPc, task: TaskPc): State {
    State([2, 3], [Frame(0, 1), Frame(1, 2)], None, sem, [first, Idle], task, 0, [], [], [{}, {}, {1}])
  }

  lemma TwoQueued()
    ensures Reachable(Queued(false, Held(0), Loop))
  {
    FirstHolds();
    var s1 := Begun(false, Held(0), Idle, [{}]);
    assert Handed(s1) == {};
    var s2 := s1.(pool := [1, 2, 3], queue := [Frame(0, 1)], before := [{}, {}]);
    SecondQueues(s1, s2);
    assert Handed(s2) == {1};
    SecondQueues(s2, Queued(false, Held(0), Loop));
  }

  /** The timeout branch is entered although no SEND is outstanding. */
  lemma EntersTimeout(s: State, t: State)
    requires Reachable(s) && s.task == Loop && !s.sem && s.active == None && s.outstanding == 0
    requires t == s.(task := Giving(true))
    ensures Reachable(t)
  {
    var s1, s2 := s.(task := CheckTimeout), s.(task := Releasing(true));
    ReachableNext(s, SkipStatus, s1);
    ReachableNext(s1, Timeout(true), s2);
    ReachableNext(s2, Release, t);
  }

  /** The driver then takes the semaphore that it gave. */
  lemma FalseTimeout(s: State, t: State)
    requires Reachable(s) && s.task == Loop && !s.sem && s.active == None && s.outstanding == 0
    requires t == s.(task := Took)
    ensures Reachable(t)
  {
    var s1, s2 := s.(task := Giving(true)), s.(task := TryTake, sem := true);
    EntersTimeout(s, s1);
    ReachableNext(s1, Give, s2);
    ReachableNext(s2, Take, t);
  }

  /** The driver starts the frame at the head of the queue. */
  lemma TaskStarts(s: State, t: State)
    requires Reachable(s) && s.task == Took && s.queue != []
    requires t == s.(task := Loop, queue := s.queue[1..], active := Some(s.queue[0].data),
                     outstanding := s.outstanding + 1, started := s.started + [s.queue[0].id])
    ensures Reachable(t)
  {
    var f := s.queue[0];
    var s1 := s.(task := Got(f), queue := s.queue[1..]);
    ReachableNext(s, Receive, s1);
    var s2 := t.(task := EthTx.Started(f.data), active := s.active);
    ReachableNext(s1, StartQueued(true), s2);
    ReachableNext(s2, SetActive, t);
  }

  function OneSent(sem: bool, first: CallerPc, task: TaskPc): State {
    State([2, 3], [Frame(1, 2)], Some(0), sem, [first, Idle], task, 1, [1], [], [{}, {}, {1}])
  }

  /** The first caller finds the queue occupied and gives the semaphore back while the driver's SEND is outstanding. */
  lemma FirstGivesBack()
    ensures Reachable(OneSent(true, WantBuf(0), Loop))
  {
    TwoQueued();
    FalseTimeout(Queued(false, Held(0), Loop), Queued(false, Held(0), Took));
    var s := OneSent(false, Held(0), Loop);
    TaskStarts(Queued(false, Held(0), Took), s);
    ReachableNext(s, LookAtQueue(0), OneSent(false, GivingBack(0), Loop));
    ReachableNext(OneSent(false, GivingBack(0), Loop), GiveBack(0), OneSent(true, WantBuf(0), Loop));
  }

  /** Two SENDs can be outstanding at once, and a buffer can be lost for good. */
  lemma BufferLost()
    ensures exists t :: Reachable(t) && t.outstanding == 2 && Owners(t, 0) == 0
  {
    FirstGivesBack();
    var s := OneSent(true, WantBuf(0), CheckTimeout);
    ReachableNext(OneSent(true, WantBuf(0), Loop), SkipStatus, s);
    ReachableNext(s, Timeout(false), s.(task := TryTake));
    var s' := OneSent(false, WantBuf(0), Took);
    ReachableNext(s.(task := TryTake), Take, s');
    var t := State([2, 3], [], Some(1), false, [WantBuf(0), Idle], Loop, 2, [1, 2], [], [{}, {}, {1}]);
    TaskStarts(s', t);
    assert Count(t.pool, 0) == 0;
    assert CallerCount(t.callers, Buffer, 0) == 0;
    assert Owners(t, 0) == 0;
  }

  function OneQueued(sem: bool, first: CallerPc, second: CallerPc, task: TaskPc, queue: seq<Frame>,
                     before: seq<set<nat>>): State {
    State([1, 2, 3], queue, None, sem, [first, second], task, 0, [], [], before)
  }

  /** The driver has the queued frame in its hand, and the first caller, who saw it in the queue, gives back. */
  lemma FrameInHand()
    ensures Reachable(OneQueued(true, WantBuf(0), Idle, Got(Frame(0, 1)), [], [{}, {}]))
  {
    FirstHolds();
    var s0, f := Begun(false, Held(0), Idle, [{}]), Frame(0, 1);
    assert Handed(s0) == {};
    var s1 := OneQueued(false, Held(0), Idle, Loop, [f], [{}, {}]);
    SecondQueues(s0, s1);
    var s2 := OneQueued(false, Held(0), Idle, Took, [f], [{}, {}]);
    FalseTimeout(s1, s2);
    var s3 := OneQueued(false, GivingBack(0), Idle, Took, [f], [{}, {}]);
    ReachableNext(s2, LookAtQueue(0), s3);
    var s4 := OneQueued(false, GivingBack(0), Idle, Got(f), [], [{}, {}]);
    ReachableNext(s3, Receive, s4);
    ReachableNext(s4, GiveBack(0), OneQueued(true, WantBuf(0), Idle, Got(f), [], [{}, {}]));
  }

  /** Call order can be broken: the second caller's next frame is sent inline before the one it had queued. */
  lemma OrderBroken()
    ensures exists t :: Reachable(t) && t.started == [2, 1] && |t.before| == 3 && 1 in t.before[2]
  {
    FrameInHand();
    var f := Frame(0, 1);
    var s := OneQueued(true, WantBuf(0), Idle, Got(f), [], [{}, {}]);
    assert Handed(s) == {1};
    var s1 := OneQueued(true, WantBuf(0), Ready(2), Got(f), [], [{}, {}, {1}]);
    ReachableNext(s, Begin(1), s1);
    var s2 := s1.(sem := false, callers := [WantBuf(0), Held(2)]);
    ReachableNext(s1, TryInline(1), s2);
    var s3 := s2.(callers := [WantBuf(0), SawEmpty(2)]);
    ReachableNext(s2, LookAtQueue(1), s3);
    SecondStartsFirst(s3);
  }

  lemma SecondStartsFirst(s: State)
    requires Reachable(s) && s.callers == [WantBuf(0), SawEmpty(2)] && s.task == Got(Frame(0, 1)) && s.started == []
    ensures exists t :: Reachable(t) && t.started == [2, 1] && t.before == s.before
  {
    var t := s.(callers := [WantBuf(0), Stamping], outstanding := s.outstanding + 1, started := [2]);
    ReachableNext(s, StartInline(1, true), t);
    var u := t.(task := EthTx.Started(0), outstanding := t.outstanding + 1, started := [2, 1]);
    ReachableNext(t, StartQueued(true), u);
  }
}
