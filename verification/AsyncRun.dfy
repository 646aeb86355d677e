/** The asynchronous logger as a step system: any number of calling threads, the worker, and the threads that flush,
    close, open or reconfigure it. A step is one critical section, one atomic read, or the end of one wait. */
module AsyncRun {
  import opened AsyncQueue
  import opened AsyncOutput

  const WORKER: nat := 0

  datatype Op = FlushLog | CloseLog | OpenLog | InitializeLog(config: Config) | ReconfigureLog(config: Config) | FinalizeLog

  /** Where a thread that isn't the worker stands. */
  datatype Place =
    | Idle
    | ReadsFlag(record: Record)
    | Formats(record: Record)
    | Enters(draft: Draft)
    | AwaitsRoom(draft: Draft)
    | AwaitsQueue(record: Record)
    | AwaitsEntry(entry: Entry)
    | WritesDirectly(record: Record, dropsBefore: nat)
    | AwaitsUpTo(op: Op, upTo: nat)
    | Performs(op: Op, upTo: nat)
    | LocksWorker(mustStop: bool)
    | Decides(mustStop: bool)
    | Joins(mustStop: bool)
    | Launches(isAsync: bool)
    | Activates(isAsync: bool)

  datatype At =
    | Waiting
    | Taken(batch: seq<Entry>, count: nat, upTo: nat)
    | Wrote(batch: seq<Entry>)
    | Marked

  /** The worker's std::thread: not joinable, finished, or running; stopFlag is the copy its loop acts on. */
  datatype Worker = NoThread | Ended | Running(at: At, stopFlag: bool)

  /** Who holds the worker lock. */
  datatype Owner = Free | HeldBy(t: nat)

  datatype Drop = Drop(record: Record, after: nat)

  /** 'queued' and 'drops' are the history of what was queued and dropped. */
  datatype State = State(
    config: Config,
    queue: Queue,
    queued: seq<Entry>,
    drops: seq<Drop>,
    output: Output,
    worker: Worker,
    updater: Owner,
    places: map<nat, Place>,
    calls: map<nat, nat>)

  datatype Step =
    | Call(t: nat, level: nat, endsLine: bool)
    | ReadFlag(t: nat)
    | Format(t: nat)
    | EnterQueue(t: nat)
    | FindRoom(t: nat)
    | SeeDrained(t: nat)
    | SeeWritten(t: nat)
    | WriteDirect(t: nat, env: Env)
    | Begin(t: nat, op: Op)
    | SeeUpTo(t: nat)
    | Perform(t: nat, env: Env)
    | LockWorker(t: nat)
    | DecideWorker(t: nat)
    | JoinWorker(t: nat)
    | LaunchWorker(t: nat)
    | ActivateAsync(t: nat)
    | WorkerTakes(isWakeDue: bool)
    | WorkerWrites(envs: seq<Env>, dropEnv: Env)
    | WorkerMarks
    | WorkerWakes
    | WorkerLoops
    | WorkerQueues(level: nat, endsLine: bool, mustFlush: bool)  // a callback on the worker logs
    | WorkerLogs(level: nat, endsLine: bool, env: Env)
    | WorkerPerforms(op: Op, env: Env)                           // a callback on the worker closes, opens, ...
    | WorkerUpdates(mustStop: bool)

  function Initial(config: Config): State {
    State(config, EMPTY_QUEUE, [], [], EMPTY_OUTPUT, NoThread, Free, map[], map[])
  }

  function PlaceOf(s: State, t: nat): Place {
    if t in s.places then s.places[t] else Idle
  }

  function CallsOf(s: State, t: nat): nat {
    if t in s.calls then s.calls[t] else 0
  }

  function InFlight(w: Worker): seq<Entry> {
    if w.Running? && (w.at.Taken? || w.at.Wrote?) then w.at.batch else []
  }

  function MakeDraft(record: Record, config: Config): Draft {
    var mustFlush := record.level >= config.waitAtLevel;
    Draft(record, mustFlush, config.dropNewest && !mustFlush, if config.queueCapacity > 1 then config.queueCapacity else 1)
  }

  function MakeDuty(mustStop: bool, isInitialized: bool, config: Config): Duty {
    if mustStop || !isInitialized then Duty(0, false)
    else Duty(if config.flushMode == Periodic && !config.autoClose then config.flushInterval else 0, config.asyncEnabled)
  }

  function Move(s: State, t: nat, place: Place): State {
    s.(places := s.places[t := place])
  }

  /** The operations that first wait for what is queued. */
  predicate WaitsFirst(op: Op) {
    !op.OpenLog? && !op.InitializeLog?
  }

  /** What Flush(), Close(), Open(), Initialize(), Reconfigure() and Finalize() do under the output's lock. */
  function PerformOp(s: State, op: Op, env: Env): State {
    match op
    case FlushLog => s.(output := Flush(s.output))
    case CloseLog => s.(output := Shut(s.output))
    case FinalizeLog => if s.output.isInitialized then s.(output := Shut(s.output)) else s
    case OpenLog => s.(output := Open(s.output, env.opens))
    case InitializeLog(config) =>
      if s.output.isInitialized then s
      else
        var rolled := if env.rotates then s.output.(file := env.nextFile) else s.output;
        s.(config := config, output := AfterEntry(Open(rolled, env.opens), config))
    case ReconfigureLog(config) =>
      if !s.output.isInitialized then s
      else if env.rotates || config.autoClose != s.config.autoClose then
        s.(config := config, output := AfterEntry(Rotate(s.output, env.nextFile, env.reopens), config))
      else s.(config := config, output := Flush(s.output))
  }

  /** Where a caller goes after a section of QueueRecord(), with what the section adds to the history. */
  function Admitted(s: State, t: nat, draft: Draft, admission: Admission, queue: Queue): State {
    var s1 := s.(queue := queue);
    match admission
    case Dropped => Move(s1.(drops := s.drops + [Drop(draft.record, s.queue.lastQueued)]), t, Idle)
    case NoRoom => Move(s1, t, AwaitsRoom(draft))
    case Switched => Move(s1, t, WritesDirectly(draft.record, |s.drops|))
    case Drains => Move(s1, t, AwaitsQueue(draft.record))
    case Accepted(entry) =>
      Move(s1.(queued := s.queued + [entry]), t, if entry.mustFlush then AwaitsEntry(entry) else Idle)
  }

  predicate CallerCan(s: State, step: Step) {
    match step
    case Call(t, level, _) => t != WORKER && PlaceOf(s, t).Idle? && level < OFF
    case ReadFlag(t) => PlaceOf(s, t).ReadsFlag?
    case Format(t) => PlaceOf(s, t).Formats?
    case EnterQueue(t) => PlaceOf(s, t).Enters?
    case FindRoom(t) => PlaceOf(s, t).AwaitsRoom? && HasRoom(s.queue, PlaceOf(s, t).draft)
    case SeeDrained(t) => PlaceOf(s, t).AwaitsQueue? && s.queue.lastWritten >= s.queue.lastQueued
    case SeeWritten(t) => PlaceOf(s, t).AwaitsEntry? && s.queue.lastWritten >= PlaceOf(s, t).entry.sequence
    case WriteDirect(t, _) => PlaceOf(s, t).WritesDirectly?
    case _ => false
  }

  function CallerNext(s: State, step: Step): State
    requires CallerCan(s, step)
  {
    match step
    case Call(t, level, endsLine) =>
      Move(s.(calls := s.calls[t := CallsOf(s, t) + 1]), t, ReadsFlag(Record(t, CallsOf(s, t), level, endsLine)))
    case ReadFlag(t) =>
      var record := PlaceOf(s, t).record;
      Move(s, t, if s.queue.isAsync then Formats(record) else WritesDirectly(record, |s.drops|))
    case Format(t) => Move(s, t, Enters(MakeDraft(PlaceOf(s, t).record, s.config)))
    case EnterQueue(t) =>
      var (admission, queue) := Enter(s.queue, PlaceOf(s, t).draft);
      Admitted(s, t, PlaceOf(s, t).draft, admission, queue)
    case FindRoom(t) =>
      var (admission, queue) := Admit(s.queue, PlaceOf(s, t).draft);
      Admitted(s, t, PlaceOf(s, t).draft, admission, queue)
    case SeeDrained(t) => Move(s, t, WritesDirectly(PlaceOf(s, t).record, |s.drops|))
    case SeeWritten(t) => Move(s, t, Idle)
    case WriteDirect(t, env) =>
      var record := PlaceOf(s, t).record;
      var what := Direct(record, PlaceOf(s, t).dropsBefore);
      Move(s.(output := Deliver(s.output, s.config, env, what, record.level, record.endsLine, false)), t, Idle)
  }

  predicate ControlCan(s: State, step: Step) {
    match step
    case Begin(t, _) => t != WORKER && PlaceOf(s, t).Idle?
    case SeeUpTo(t) => PlaceOf(s, t).AwaitsUpTo? && s.queue.lastWritten >= PlaceOf(s, t).upTo
    case Perform(t, _) => PlaceOf(s, t).Performs?
    case LockWorker(t) => PlaceOf(s, t).LocksWorker? && s.updater.Free?
    case DecideWorker(t) => PlaceOf(s, t).Decides?
    case JoinWorker(t) => PlaceOf(s, t).Joins? && s.worker.Ended?
    case LaunchWorker(t) => PlaceOf(s, t).Launches?
    case ActivateAsync(t) => PlaceOf(s, t).Activates?
    case _ => false
  }

  function ControlNext(s: State, step: Step): State
    requires ControlCan(s, step)
  {
    match step
    case Begin(t, op) => Move(s, t, if WaitsFirst(op) then AwaitsUpTo(op, s.queue.lastQueued) else Performs(op, 0))
    case SeeUpTo(t) => Move(s, t, Performs(PlaceOf(s, t).op, PlaceOf(s, t).upTo))
    case Perform(t, env) =>
      var op := PlaceOf(s, t).op;
      Move(PerformOp(s, op, env), t, if op.FlushLog? then Idle else LocksWorker(op.FinalizeLog?))
    case LockWorker(t) => Move(s.(updater := HeldBy(t)), t, Decides(PlaceOf(s, t).mustStop))
    case DecideWorker(t) =>
      var duty := MakeDuty(PlaceOf(s, t).mustStop, s.output.isInitialized, s.config);
      var (decision, queue) := Decide(s.queue, !s.worker.NoThread?, duty);
      var s1 := s.(queue := queue);
      (match decision
       case Stops => Move(s1, t, Joins(PlaceOf(s, t).mustStop))
       case Starts => Move(s1, t, Launches(duty.isAsync))
       case _ => Move(s1.(updater := Free), t, Idle))
    case JoinWorker(t) => Move(s.(worker := NoThread), t, Decides(PlaceOf(s, t).mustStop))
    case LaunchWorker(t) => Move(s.(worker := Running(Waiting, false)), t, Activates(PlaceOf(s, t).isAsync))
    case ActivateAsync(t) =>
      Move(s.(queue := SetActive(s.queue, PlaceOf(s, t).isAsync), updater := Free), t, Idle)
  }

  function TakeBatch(s: State): State {
    var at := if s.queue.entries != [] || s.queue.dropped > 0
              then Taken(s.queue.entries, s.queue.dropped, s.queue.lastQueued) else Marked;
    s.(queue := Take(s.queue), worker := Running(at, s.queue.isStopping))
  }

  function WriteTaken(s: State, envs: seq<Env>, dropEnv: Env): State
    requires s.worker.Running? && s.worker.at.Taken? && |envs| == |s.worker.at.batch|
  {
    var at := s.worker.at;
    s.(output := WriteQueued(s.output, s.config, envs, dropEnv, at.batch, at.count, at.upTo),
       worker := s.worker.(at := Wrote(at.batch)))
  }

  function MarkBatch(s: State): State
    requires s.worker.Running? && s.worker.at.Wrote?
  {
    s.(queue := MarkWritten(s.queue, s.worker.at.batch), worker := s.worker.(at := Marked))
  }

  predicate InCallback(w: Worker) {
    w.Running? && (w.at.Wrote? || w.at.Marked?)
  }

  predicate WorkerCan(s: State, step: Step) {
    s.worker.Running? &&
    match step
    case WorkerTakes(isWakeDue) => s.worker.at.Waiting? && CanTake(s.queue, isWakeDue)
    case WorkerWrites(envs, _) => s.worker.at.Taken? && |envs| == |s.worker.at.batch|
    case WorkerMarks => s.worker.at.Wrote?
    case WorkerWakes => s.worker.at.Marked?
    case WorkerLoops => s.worker.at.Marked?
    case WorkerQueues(level, _, _) => InCallback(s.worker) && s.queue.isAsyncActive && level < OFF
    case WorkerLogs(level, _, _) => InCallback(s.worker) && level < OFF
    case WorkerPerforms(_, _) => InCallback(s.worker)
    case WorkerUpdates(_) => InCallback(s.worker)
    case _ => false
  }

  function WorkerNext(s: State, step: Step): State
    requires WorkerCan(s, step)
  {
    match step
    case WorkerTakes(_) => TakeBatch(s)
    case WorkerWrites(envs, dropEnv) => WriteTaken(s, envs, dropEnv)
    case WorkerMarks => MarkBatch(s)
    case WorkerWakes => s.(output := Flush(s.output))
    case WorkerLoops => s.(worker := if s.worker.stopFlag then Ended else Running(Waiting, false))
    case WorkerQueues(level, endsLine, mustFlush) =>
      var record := Record(WORKER, CallsOf(s, WORKER), level, endsLine);
      var (entry, queue) := Push(s.queue, Draft(record, mustFlush, false, 1));
      s.(queue := queue, queued := s.queued + [entry], calls := s.calls[WORKER := CallsOf(s, WORKER) + 1])
    case WorkerLogs(level, endsLine, env) =>
      var record := Record(WORKER, CallsOf(s, WORKER), level, endsLine);
      s.(output := Deliver(s.output, s.config, env, Direct(record, 0), level, endsLine, false),
         calls := s.calls[WORKER := CallsOf(s, WORKER) + 1])
    case WorkerPerforms(op, env) => PerformOp(s, op, env)
    case WorkerUpdates(mustStop) =>
      s.(queue := DecideOnWorker(s.queue, MakeDuty(mustStop, s.output.isInitialized, s.config)))
  }

  predicate Can(s: State, step: Step) {
    CallerCan(s, step) || ControlCan(s, step) || WorkerCan(s, step)
  }

  function Next(s: State, step: Step): State
    requires Can(s, step)
  {
    if CallerCan(s, step) then CallerNext(s, step)
    else if ControlCan(s, step) then ControlNext(s, step)
    else WorkerNext(s, step)
  }

  /** The steps can be taken one after the other from 's'. */
  predicate IsRun(s: State, steps: seq<Step>)
    decreases |steps|
  {
    steps == [] || (Can(s, steps[0]) && IsRun(Next(s, steps[0]), steps[1..]))
  }

  function After(s: State, steps: seq<Step>): State
    requires IsRun(s, steps)
    decreases |steps|
  {
    if steps == [] then s else After(Next(s, steps[0]), steps[1..])
  }
}
