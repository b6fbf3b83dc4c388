/** The transmit path of the Ethernet driver: any number of callers, which send small frames inline or queue them in
    pool buffers, and one driver task, interleaved between any two uses of a queue, the idle semaphore, the active
    slot or the chip. Every call has a number; calls are numbered in the order they begin. */
module EthTx {
  import opened Wrappers

  const DEPTH := 4

  datatype Frame = Frame(data: nat, id: nat)

  datatype CallerPc =
    | Idle
    | Ready(id: nat)            // length checked
    | Held(id: nat)             // has the semaphore, has not looked at the queue
    | SawEmpty(id: nat)         // has the semaphore, about to issue SEND
    | Stamping                  // SEND issued, start time not stamped yet
    | GivingBack(id: nat)       // about to give the semaphore back
    | WantBuf(id: nat)
    | HasBuf(id: nat, data: nat)

  datatype TaskPc =
    | Loop
    | Releasing(late: bool)     // in the SEND-done branch, or the timeout branch if late
    | Returned(late: bool)      // active buffer put into the pool, slot not cleared yet
    | Giving(late: bool)        // about to give the semaphore
    | CheckTimeout
    | TryTake
    | Took
    | Got(frame: Frame)
    | Started(data: nat)        // SEND issued, active slot not set yet
    | Failed(data: nat)         // start failed, buffer not returned yet
    | PuttingBack               // about to give the semaphore back unused

  /** Besides the driver's variables: the SENDs issued and neither found done nor given up, the frames whose SEND was
      issued, in order, the frames that were dropped, and for each call the frames handed over before it began. */
  datatype State = State(
    pool: seq<nat>,
    queue: seq<Frame>,
    active: Option<nat>,
    sem: bool,
    callers: seq<CallerPc>,
    task: TaskPc,
    outstanding: nat,
    started: seq<nat>,
    dropped: seq<nat>,
    before: seq<set<nat>>)

  datatype Step =
    | Begin(i: nat)
    | TryInline(i: nat)
    | SkipInline(i: nat)        // too long, unaligned, or the semaphore is taken
    | LookAtQueue(i: nat)
    | StartInline(i: nat, ok: bool)
    | Stamp(i: nat)
    | GiveBack(i: nat)
    | TakeBuf(i: nat)
    | PoolEmpty(i: nat)
    | Enqueue(i: nat)
    | ReadStatus(done: bool)    // woken by a notification
    | SkipStatus
    | Release
    | ClearActive
    | Give
    | Timeout(expired: bool)
    | Take
    | Receive
    | StartQueued(ok: bool)
    | SetActive
    | ReturnFailed
    | PutBack

  predicate IsCallerStep(step: Step) {
    step.Begin? || step.TryInline? || step.SkipInline? || step.LookAtQueue? || step.StartInline? || step.Stamp?
    || step.GiveBack? || step.TakeBuf? || step.PoolEmpty? || step.Enqueue?
  }

  predicate CallerEnabled(s: State, step: Step)
    requires IsCallerStep(step)
  {
    && step.i < |s.callers|
    && var pc := s.callers[step.i];
      match step
      case Begin(_) => pc.Idle?
      case TryInline(_) => pc.Ready? && s.sem
      case SkipInline(_) => pc.Ready?
      case LookAtQueue(_) => pc.Held?
      case StartInline(_, _) => pc.SawEmpty?
      case Stamp(_) => pc.Stamping?
      case GiveBack(_) => pc.GivingBack?
      case TakeBuf(_) => pc.WantBuf? && s.pool != []
      case PoolEmpty(_) => pc.WantBuf? && s.pool == []
      case Enqueue(_) => pc.HasBuf?
  }

  predicate Enabled(s: State, step: Step) {
    if IsCallerStep(step) then CallerEnabled(s, step)
    else match step {
      case ReadStatus(_) => s.task.Loop?
      case SkipStatus => s.task.Loop?
      case Release => s.task.Releasing?
      case ClearActive => s.task.Returned?
      case Give => s.task.Giving?
      case Timeout(expired) => s.task.CheckTimeout? && (expired ==> !s.sem)
      case Take => s.task.TryTake?
      case Receive => s.task.Took?
      case StartQueued(_) => s.task.Got?
      case SetActive => s.task.Started?
      case ReturnFailed => s.task.Failed?
      case PutBack => s.task.PuttingBack?
    }
  }

  function Ids(queue: seq<Frame>): set<nat> {
    set f | f in queue :: f.id
  }

  function InHand(s: State): set<nat> {
    if s.task.Got? then {s.task.frame.id} else {}
  }

  /** The frame's SEND was issued, or the frame was dropped. */
  predicate Settled(s: State, x: nat) {
    x in s.started || x in s.dropped
  }

  /** All frames the driver has accepted so far. */
  function Handed(s: State): set<nat> {
    (set x | x in s.started) + (set x | x in s.dropped) + Ids(s.queue) + InHand(s)
  }

  /** A send to a queue of the driver's depth; it fails if the queue is full. */
  function Send<T>(q: seq<T>, x: T): seq<T> {
    if |q| < DEPTH then q + [x] else q
  }

  function CallerStep(s: State, step: Step): State
    requires IsCallerStep(step) && CallerEnabled(s, step)
  {
    var i, pc := step.i, s.callers[step.i];
    match step
    case Begin(_) => s.(callers := s.callers[i := Ready(|s.before|)], before := s.before + [Handed(s)])
    case TryInline(_) => s.(callers := s.callers[i := Held(pc.id)], sem := false)
    case SkipInline(_) => s.(callers := s.callers[i := WantBuf(pc.id)])
    case LookAtQueue(_) => s.(callers := s.callers[i := if s.queue == [] then SawEmpty(pc.id) else GivingBack(pc.id)])
    case StartInline(_, ok) =>
      if ok then s.(callers := s.callers[i := Stamping], outstanding := s.outstanding + 1, started := s.started + [pc.id])
      else s.(callers := s.callers[i := GivingBack(pc.id)])
    case Stamp(_) => s.(callers := s.callers[i := Idle])
    case GiveBack(_) => s.(callers := s.callers[i := WantBuf(pc.id)], sem := true)
    case TakeBuf(_) => s.(callers := s.callers[i := HasBuf(pc.id, s.pool[0])], pool := s.pool[1..])
    case PoolEmpty(_) => s.(callers := s.callers[i := Idle], dropped := s.dropped + [pc.id])
    case Enqueue(_) => s.(callers := s.callers[i := Idle], queue := Send(s.queue, Frame(pc.data, pc.id)))
  }

  function TaskStep(s: State, step: Step): State
    requires !IsCallerStep(step) && Enabled(s, step)
  {
    match step
    case ReadStatus(done) =>
      if done then s.(task := Releasing(false), outstanding := if s.outstanding > 0 then s.outstanding - 1 else 0)
      else s.(task := CheckTimeout)
    case SkipStatus => s.(task := CheckTimeout)
    case Release =>
      if s.active.Some? then s.(task := Returned(s.task.late), pool := Send(s.pool, s.active.value))
      else s.(task := Giving(s.task.late))
    case ClearActive => s.(task := Giving(s.task.late), active := None)
    case Give => s.(task := if s.task.late then TryTake else CheckTimeout, sem := true)
    case Timeout(expired) =>
      if expired then s.(task := Releasing(true), outstanding := if s.outstanding > 0 then s.outstanding - 1 else 0)
      else s.(task := TryTake)
    case Take => if s.sem then s.(task := Took, sem := false) else s.(task := Loop)
    case Receive =>
      if s.queue == [] then s.(task := PuttingBack)
      else s.(task := Got(s.queue[0]), queue := s.queue[1..])
    case StartQueued(ok) =>
      var f := s.task.frame;
      if ok then s.(task := Started(f.data), outstanding := s.outstanding + 1, started := s.started + [f.id])
      else s.(task := Failed(f.data), dropped := s.dropped + [f.id])
    case SetActive => s.(task := Loop, active := Some(s.task.data))
    case ReturnFailed => s.(task := PuttingBack, pool := Send(s.pool, s.task.data))
    case PutBack => s.(task := Loop, sem := true)
  }

  function Apply(s: State, step: Step): State
    requires Enabled(s, step)
  {
    if IsCallerStep(step) then CallerStep(s, step) else TaskStep(s, step)
  }

  predicate Initial(s: State) {
    && s.pool == [0, 1, 2, 3] && s.queue == [] && s.active == None && s.sem && s.task == Loop
    && s.outstanding == 0 && s.started == [] && s.dropped == [] && s.before == []
    && forall i :: 0 <= i < |s.callers| ==> s.callers[i] == Idle
  }

  predicate IsRun(states: seq<State>, steps: seq<Step>) {
    && |states| == |steps| + 1
    && forall k :: 0 <= k < |steps| ==> Enabled(states[k], steps[k]) && states[k + 1] == Apply(states[k], steps[k])
  }
}
