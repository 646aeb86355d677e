/** How queued entries lose their worker: when that can still happen, runs in which it does, and who waits for ever then. */
module AsyncStranded {
  import opened AsyncQueue
  import opened AsyncOutput
  import opened AsyncRun
  import opened AsyncOrder
  import opened AsyncCalls
  import opened AsyncLiveness

  /** Entries are queued that no worker will take. */
  predicate Abandoned(s: State) {
    s.queue.entries != [] && !WillTake(s.worker)
  }

  // ---- Served means that no entry can be abandoned ------------------------------------

  predicate IsHarmless(step: Step) {
    !step.ActivateAsync? && !step.WorkerUpdates?
  }

  predicate AllHarmless(steps: seq<Step>) {
    forall i :: 0 <= i < |steps| ==> IsHarmless(steps[i])
  }

  lemma {:induction false} HarmlessStrandsNobody(s: State, steps: seq<Step>)
    requires IsRun(s, steps) && AllHarmless(steps)
    ensures NeverStrands(s, steps)
    decreases |steps|
  {
    hide Next, Can;
    if steps != [] {
      assert IsHarmless(steps[0]) && !Strands(s, steps[0]);
      HarmlessStrandsNobody(Next(s, steps[0]), steps[1..]);
    }
  }

  lemma {:induction false} FreeThread(places: map<nat, Place>) returns (t: nat)
    ensures t != WORKER && forall u :: u in places ==> u < t
    decreases |places|
  {
    if places == map[] {
      t := 1;
    } else {
      var u :| u in places;
      var rest := places - {u};
      assert rest.Keys == places.Keys - {u};
      assert |rest.Keys| < |places.Keys|;
      t := FreeThread(rest);
      if t <= u { t := u + 1; }
      assert forall v :: v in places ==> v == u || v in rest;
    }
  }

  /** Async is on without a worker that takes entries: the next call's entry is abandoned. */
  lemma AbandonsOne(s: State) returns (steps: seq<Step>, s': State)
    requires s.queue.isAsync && s.queue.isAsyncActive && s.queue.entries == [] && !WillTake(s.worker)
    ensures Reaches(s, steps, s') && AllHarmless(steps) && Abandoned(s')
  {
    var t := FreeThread(s.places);
    s' := QueuesOne(s, t, 0, true);
    steps := QueuedCall(t, 0, true);
  }

  /** A worker told to stop reads that when it next takes the queue, which is empty then. */
  lemma {:induction false} ReadsStop(s: State) returns (steps: seq<Step>, s': State)
    requires s.queue.isStopping && s.queue.isAsync && s.queue.isAsyncActive && WillTake(s.worker)
    ensures Reaches(s, steps, s') && AllHarmless(steps)
    ensures s'.queue.isAsync && s'.queue.isAsyncActive && s'.queue.entries == [] && !WillTake(s'.worker)
    decreases match s.worker.at case Waiting => 0 case Marked => 1 case Wrote(_) => 2 case Taken(_, _, _) => 3
  {
    hide WriteQueued, CallerCan, CallerNext, ControlCan, ControlNext;
    var step := LoopStep(s);
    var next := WorkerNext(s, step);
    assert Next(s, step) == next by { NoOtherStep(s, step); }
    One(s, step);
    if s.worker.at.Waiting? {
      steps, s' := [step], next;
    } else {
      var rest;
      rest, s' := ReadsStop(next);
      RunJoins(s, [step], next, rest, s');
      steps := [step] + rest;
    }
  }

  lemma NoOtherStep(s: State, step: Step)
    requires IsWorkerStep(step)
    ensures !CallerCan(s, step) && !ControlCan(s, step)
  {
  }

  /** The worker writes and marks what it has taken. */
  lemma FinishesBatch(s: State) returns (steps: seq<Step>, s': State)
    requires Counters(s) && s.queue.entries == []
    ensures Reaches(s, steps, s') && AllHarmless(steps) && SameLogger(s, s') && Counters(s')
    ensures s'.queue.lastWritten == s'.queue.lastQueued && s'.queue.entries == [] && WillTake(s'.worker) == WillTake(s.worker)
    decreases if s.worker.Running? && s.worker.at.Taken? then 2 else if s.worker.Running? && s.worker.at.Wrote? then 1 else 0
  {
    hide Counters, WriteQueued, CallerCan, CallerNext, ControlCan, ControlNext;
    if s.worker.Running? && (s.worker.at.Taken? || s.worker.at.Wrote?) {
      var step := LoopStep(s);
      var next := WorkerNext(s, step);
      NoOtherStep(s, step);
      WorkerKeepsCounters(s, step);
      One(s, step);
      var rest;
      rest, s' := FinishesBatch(next);
      RunJoins(s, [step], next, rest, s');
      steps := [step] + rest;
    } else {
      assert |InFlight(s.worker) + s.queue.entries| == s.queue.lastQueued - s.queue.lastWritten by { CountersLength(s); }
      steps, s' := [], s;
    }
  }

  lemma CountersLength(s: State)
    requires Counters(s)
    ensures |InFlight(s.worker) + s.queue.entries| == s.queue.lastQueued - s.queue.lastWritten
  {
  }

  function Reconfiguring(t: nat, config: Config): seq<Step> {
    [Begin(t, ReconfigureLog(config)), SeeUpTo(t), Perform(t, CLOSES), LockWorker(t), DecideWorker(t)]
  }

  /** A worker that isn't told to stop counts as running, even if it is about to end or has ended: Reconfigure() keeps it
      and switches async on. */
  lemma ReconfiguresToAsync(s: State, t: nat, config: Config) returns (s': State)
    requires t != WORKER && PlaceOf(s, t).Idle? && s.updater.Free? && s.queue.lastWritten == s.queue.lastQueued
    requires !s.worker.NoThread? && !s.queue.isStopping && config.asyncEnabled && s.output.isInitialized
    ensures Reaches(s, Reconfiguring(t, config), s')
    ensures s'.worker == s.worker && s'.updater.Free? && s'.config == config && s'.output.isInitialized
    ensures s'.queue == s.queue.(isAsyncActive := true, isAsync := true, interval := s'.queue.interval)
    ensures PlaceOf(s', t) == Idle && OthersStay(s, s', t)
  {
    var m := WaitsAndPerforms(s, t, config);
    s' := LocksAndKeeps(m, t);
    var first := [Begin(t, ReconfigureLog(config)), SeeUpTo(t), Perform(t, CLOSES)];
    RunJoins(s, first, m, [LockWorker(t), DecideWorker(t)], s');
    assert first + [LockWorker(t), DecideWorker(t)] == Reconfiguring(t, config);
  }

  lemma WaitsAndPerforms(s: State, t: nat, config: Config) returns (s': State)
    requires t != WORKER && PlaceOf(s, t).Idle? && s.queue.lastWritten == s.queue.lastQueued && s.output.isInitialized
    ensures Reaches(s, [Begin(t, ReconfigureLog(config)), SeeUpTo(t), Perform(t, CLOSES)], s') && s'.output.isInitialized
    ensures s' == s.(config := config, output := s'.output, places := s'.places)
    ensures PlaceOf(s', t) == LocksWorker(false) && OthersStay(s, s', t)
  {
    hide Reaches, IsRun, After, CallerCan, CallerNext, WorkerCan, WorkerNext;
    var s1 := ControlNext(s, Begin(t, ReconfigureLog(config)));
    ControlGoes(s, Begin(t, ReconfigureLog(config)));
    One(s, Begin(t, ReconfigureLog(config)));
    var s2 := ControlNext(s1, SeeUpTo(t));
    ControlGoes(s1, SeeUpTo(t));
    Then(s, [Begin(t, ReconfigureLog(config))], s1, SeeUpTo(t));
    s' := ControlNext(s2, Perform(t, CLOSES));
    ControlGoes(s2, Perform(t, CLOSES));
    Then(s, [Begin(t, ReconfigureLog(config))] + [SeeUpTo(t)], s2, Perform(t, CLOSES));
    assert [Begin(t, ReconfigureLog(config))] + [SeeUpTo(t)] + [Perform(t, CLOSES)]
        == [Begin(t, ReconfigureLog(config)), SeeUpTo(t), Perform(t, CLOSES)];
  }

  lemma LocksAndKeeps(s: State, t: nat) returns (s': State)
    requires PlaceOf(s, t) == LocksWorker(false) && s.updater.Free?
    requires !s.worker.NoThread? && !s.queue.isStopping && s.config.asyncEnabled && s.output.isInitialized
    ensures Reaches(s, [LockWorker(t), DecideWorker(t)], s')
    ensures s' == s.(queue := s'.queue, places := s'.places)
    ensures s'.queue == s.queue.(isAsyncActive := true, isAsync := true, interval := s'.queue.interval)
    ensures PlaceOf(s', t) == Idle && OthersStay(s, s', t)
  {
    hide Reaches, IsRun, After, CallerCan, CallerNext, WorkerCan, WorkerNext;
    var s1 := ControlNext(s, LockWorker(t));
    ControlGoes(s, LockWorker(t));
    One(s, LockWorker(t));
    s' := Keeps(s1, t);
    RunJoins(s, [LockWorker(t)], s1, [DecideWorker(t)], s');
    assert [LockWorker(t)] + [DecideWorker(t)] == [LockWorker(t), DecideWorker(t)];
  }

  lemma Keeps(s: State, t: nat) returns (s': State)
    requires PlaceOf(s, t) == Decides(false)
    requires !s.worker.NoThread? && !s.queue.isStopping && s.config.asyncEnabled && s.output.isInitialized
    ensures Reaches(s, [DecideWorker(t)], s')
    ensures s' == s.(queue := s'.queue, updater := Free, places := s'.places)
    ensures s'.queue == s.queue.(isAsyncActive := true, isAsync := true, interval := s'.queue.interval)
    ensures PlaceOf(s', t) == Idle && OthersStay(s, s', t)
  {
    hide Reaches, IsRun, After, CallerCan, CallerNext, WorkerCan, WorkerNext;
    ControlGoes(s, DecideWorker(t));
    One(s, DecideWorker(t));
    s' := ControlNext(s, DecideWorker(t));
  }

  const ASYNC := Config(8, false, 4, true, Periodic, 1, 4, OFF, false)

  /** Either Reconfigure() or Initialize() brings a configuration with async on. */
  lemma GoesAsync(s: State, t: nat) returns (steps: seq<Step>, s': State)
    requires t != WORKER && PlaceOf(s, t).Idle? && s.updater.Free? && s.queue.lastWritten == s.queue.lastQueued
    requires !s.worker.NoThread? && !s.queue.isStopping
    ensures Reaches(s, steps, s') && AllHarmless(steps) && s'.worker == s.worker
    ensures s'.queue == s.queue.(isAsyncActive := true, isAsync := true, interval := s'.queue.interval)
  {
    hide Reaches, PerformOp;
    if s.output.isInitialized {
      steps := Reconfiguring(t, ASYNC);
      s' := ReconfiguresToAsync(s, t, ASYNC);
    } else {
      steps := Opening(t, InitializeLog(ASYNC)) + [DecideWorker(t)];
      var m := OpensAndLocks(s, t, InitializeLog(ASYNC));
      Initializes(s, ASYNC);
      s' := Keeps(m, t);
      RunJoins(s, Opening(t, InitializeLog(ASYNC)), m, [DecideWorker(t)], s');
    }
  }

  lemma Initializes(s: State, config: Config)
    requires !s.output.isInitialized
    ensures var s' := PerformOp(s, InitializeLog(config), OPENS);
      s' == s.(config := config, output := s'.output) && s'.output.isInitialized
  {
  }

  /** From a state that isn't served, with nobody in the middle of updating the worker, threads that only log or
      reconfigure and a worker that only writes come to abandon an entry. */
  lemma AbandonsSomebody(s: State) returns (steps: seq<Step>, s': State)
    requires Counters(s) && s.updater.Free? && !Served(s)
    ensures Reaches(s, steps, s') && AllHarmless(steps) && Abandoned(s')
  {
    hide Reaches, Counters, PlaceOf;
    assert FlagFollows(s.queue) by { CountersFlag(s); }
    if Abandoned(s) {
      steps, s' := [], s;
      assert Reaches(s, [], s) by { ReachesItself(s); }
    } else if s.queue.isAsyncActive {
      var first, m := [], s;
      ReachesItself(s);
      if WillTake(s.worker) {
        first, m := ReadsStop(s);
      }
      var rest;
      rest, s' := AbandonsOne(m);
      RunJoins(s, first, m, rest, s');
      steps := first + rest;
    } else {
      var first, m := FinishesBatch(s);
      var t := FreeThread(m.places);
      assert PlaceOf(m, t).Idle? by { NotThere(m, t); }
      var second, n := GoesAsync(m, t);
      RunJoins(s, first, m, second, n);
      var rest;
      rest, s' := AbandonsOne(n);
      RunJoins(s, first + second, n, rest, s');
      steps := first + second + rest;
    }
  }

  lemma ReachesItself(s: State)
    ensures Reaches(s, [], s)
  {
  }

  lemma CountersFlag(s: State)
    requires Counters(s)
    ensures FlagFollows(s.queue)
  {
  }

  lemma NotThere(s: State, t: nat)
    requires t !in s.places
    ensures PlaceOf(s, t).Idle?
  {
  }

  /** While nobody is updating the worker, "served" is exactly that no entry can come to be abandoned, whatever happens
      next but for the two steps of Strands(). */
  lemma ServedExactly(s: State)
    requires Counters(s) && OneUpdater(s) && s.updater.Free?
    ensures Served(s) <==> forall steps | IsRun(s, steps) && NeverStrands(s, steps) :: !Abandoned(After(s, steps))
  {
    hide Counters, OneUpdater;
    if Served(s) {
      forall steps | IsRun(s, steps) && NeverStrands(s, steps) ensures !Abandoned(After(s, steps)) {
        RunServed(s, steps);
      }
    } else {
      var steps, s' := AbandonsSomebody(s);
      HarmlessStrandsNobody(s, steps);
      assert IsRun(s, steps) && NeverStrands(s, steps) && Abandoned(After(s, steps));
    }
  }

  // ---- Who waits for ever once the worker has ended ------------------------------------

  /** Thread t waits for entries that haven't been written. */
  predicate WaitsInVain(s: State, t: nat) {
    match PlaceOf(s, t)
    case AwaitsQueue(_) => s.queue.lastWritten < s.queue.lastQueued
    case AwaitsEntry(entry) => s.queue.lastWritten < entry.sequence
    case AwaitsUpTo(_, upTo) => s.queue.lastWritten < upTo
    case _ => false
  }

  /** Nobody is about to join an ended worker or to start one. */
  ghost predicate NobodyReplaces(s: State) {
    s.worker.Ended? && forall t :: !PlaceOf(s, t).Joins? && !PlaceOf(s, t).Launches?
  }

  ghost predicate StillWaits(s: State, s': State) {
    && s'.worker.Ended? && s'.queue.lastWritten == s.queue.lastWritten && s.queue.lastQueued <= s'.queue.lastQueued
    && s.queue.entries <= s'.queue.entries
    && forall t :: WaitsInVain(s, t) ==> PlaceOf(s', t) == PlaceOf(s, t)
  }

  lemma CallerStays(s: State, step: Step)
    requires CallerCan(s, step) && s.worker.Ended?
    ensures StillWaits(s, CallerNext(s, step)) && CallerNext(s, step).queue.isStopping == s.queue.isStopping
    ensures CallerNext(s, step).config == s.config
    ensures s.output.isInitialized ==> CallerNext(s, step).output.isInitialized
  {
    hide CallerNext;
    CallerMoves(s, step);
    NobodyGoesOn(s, step);
    hide CallerCan;
    if IsSection(step) {
      SectionAdmits(s, step);
      hide SectionOf;
    } else if step.WriteDirect? {
      DirectDelivers(s, step);
      var place := PlaceOf(s, step.t);
      DeliverKeepsInitialized(s.output, s.config, step.env, Direct(place.record, place.dropsBefore), place.record.level,
                              place.record.endsLine, false);
      hide Deliver;
    } else {
      OthersAreQuiet(s, step);
    }
  }

  /** Only Close() and Finalize() end the initialized state: no entry does. */
  lemma DeliverKeepsInitialized(o: Output, config: Config, env: Env, what: What, level: nat, endsLine: bool, inBatch: bool)
    ensures o.isInitialized ==> Deliver(o, config, env, what, level, endsLine, inBatch).isInitialized
  {
  }

  lemma {:induction false} BatchKeepsInitialized(o: Output, config: Config, envs: seq<Env>, batch: seq<Entry>)
    requires |envs| == |batch|
    ensures o.isInitialized ==> WriteBatch(o, config, envs, batch).isInitialized
  {
    hide Deliver;
    if batch != [] {
      var n := |batch| - 1;
      BatchKeepsInitialized(o, config, envs[..n], batch[..n]);
      DeliverKeepsInitialized(WriteBatch(o, config, envs[..n], batch[..n]), config, envs[n], Queued(batch[n]),
                              batch[n].record.level, batch[n].record.endsLine, true);
    }
  }

  lemma QueuedKeepsInitialized(o: Output, config: Config, envs: seq<Env>, dropEnv: Env, batch: seq<Entry>, count: nat, after: nat)
    requires |envs| == |batch|
    ensures o.isInitialized ==> WriteQueued(o, config, envs, dropEnv, batch, count, after).isInitialized
  {
    hide Deliver, WriteBatch;
    BatchKeepsInitialized(o, config, envs, batch);
    DeliverKeepsInitialized(WriteBatch(o, config, envs, batch), config, dropEnv, DropLine(count, after), WARN, true, true);
  }

  lemma NobodyGoesOn(s: State, step: Step)
    requires CallerCan(s, step)
    ensures HasThread(step) && !WaitsInVain(s, step.t)
  {
  }

  lemma ControlStays(s: State, step: Step)
    requires ControlCan(s, step) && s.worker.Ended? && !PlaceOf(s, step.t).Joins? && !PlaceOf(s, step.t).Launches?
    ensures StillWaits(s, ControlNext(s, step))
    ensures !PlaceOf(ControlNext(s, step), step.t).Launches?
    ensures PlaceOf(ControlNext(s, step), step.t).Joins? ==> step.DecideWorker?
    ensures !step.DecideWorker? ==> ControlNext(s, step).queue.isStopping == s.queue.isStopping
  {
    hide CallerNext, WorkerNext;
    match step
    case Perform(t, env) => PerformKeepsLines(s, PlaceOf(s, t).op, env);
    case _ =>
  }

  /** With the worker ended, a decision of UpdateWorker() is all that can help: no other step writes an entry, ends a wait,
      or brings a worker back. */
  lemma StepReplacesNobody(s: State, step: Step)
    requires NobodyReplaces(s) && OneUpdater(s) && Can(s, step) && !step.DecideWorker?
    ensures NobodyReplaces(Next(s, step)) && StillWaits(s, Next(s, step))
  {
    hide CallerNext, ControlNext;
    if CallerCan(s, step) {
      CallerMoves(s, step);
      CallerStays(s, step);
      CallerHoldsNothing(s, step);
    } else {
      ControlMoves(s, step);
      ControlStays(s, step);
    }
  }

  lemma StillWaitsOn(s: State, m: State, s': State)
    requires StillWaits(s, m) && StillWaits(m, s')
    ensures StillWaits(s, s')
  {
    assert forall t :: WaitsInVain(s, t) ==> WaitsInVain(m, t);
  }

  lemma {:induction false} OnlyDecidingHelps(s: State, steps: seq<Step>)
    requires NobodyReplaces(s) && OneUpdater(s) && IsRun(s, steps)
    requires forall i :: 0 <= i < |steps| ==> !steps[i].DecideWorker?
    ensures NobodyReplaces(After(s, steps)) && StillWaits(s, After(s, steps))
    decreases |steps|
  {
    hide Next, Can, NobodyReplaces, OneUpdater;
    if steps == [] {
      assert s.worker.Ended? by { Replaced(s); }
    } else {
      var next := Next(s, steps[0]);
      StepReplacesNobody(s, steps[0]);
      OneUpdaterKept(s, steps[0]);
      OnlyDecidingHelps(next, steps[1..]);
      StillWaitsOn(s, next, After(s, steps));
    }
  }

  lemma Replaced(s: State)
    requires NobodyReplaces(s)
    ensures s.worker.Ended?
  {
  }

  /** Thread t is past the wait with which Flush(), Close(), Reconfigure() and Finalize() begin, and will update the
      worker. */
  predicate WillUpdate(s: State, t: nat) {
    match PlaceOf(s, t)
    case AwaitsUpTo(op, upTo) => !op.FlushLog? && upTo <= s.queue.lastWritten
    case Performs(op, _) => !op.FlushLog?
    case LocksWorker(_) => true
    case place => HoldsUpdate(place)
  }

  /** The worker has ended with entries unwritten, and nobody is going to update it. */
  ghost predicate CutOff(s: State) {
    s.worker.Ended? && s.queue.lastWritten < s.queue.lastQueued && forall t :: !WillUpdate(s, t)
  }

  /** Open() and Initialize() are the operations that don't wait for what is queued. */
  predicate BeginsWaiting(step: Step) {
    step.Begin? ==> WaitsFirst(step.op)
  }

  lemma StaysCutOff(s: State, step: Step)
    requires CutOff(s) && OneUpdater(s) && Can(s, step) && BeginsWaiting(step)
    ensures !step.DecideWorker? && CutOff(Next(s, step)) && StillWaits(s, Next(s, step))
  {
    hide CallerNext, ControlNext;
    var s' := Next(s, step);
    if CallerCan(s, step) {
      CallerMoves(s, step);
      CallerStays(s, step);
      CallerOnlyLogs(s, step);
    } else {
      assert !WillUpdate(s, step.t);
      ControlMoves(s, step);
      ControlStays(s, step);
      ControlOnlyWaits(s, step);
    }
    forall u | u != step.t ensures !WillUpdate(s', u) {
      assert !WillUpdate(s, u);
    }
  }

  lemma CallerOnlyLogs(s: State, step: Step)
    requires CallerCan(s, step)
    ensures !WillUpdate(CallerNext(s, step), step.t)
  {
    hide Enter, Admit, Deliver, MakeDraft;
  }

  lemma ControlOnlyWaits(s: State, step: Step)
    requires ControlCan(s, step) && !WillUpdate(s, step.t) && BeginsWaiting(step) && s.queue.lastWritten < s.queue.lastQueued
    ensures !WillUpdate(ControlNext(s, step), step.t) && !step.DecideWorker?
  {
    hide CallerNext, WorkerNext;
    match step
    case Perform(t, env) => PerformKeepsLines(s, PlaceOf(s, t).op, env);
    case _ =>
  }

  /** From there, unless some thread calls Open() or Initialize(), no entry is written any more, and everybody who waits
      for one, or calls Flush(), Close(), Reconfigure() or Finalize(), waits for ever. */
  lemma {:induction false} NobodyReturns(s: State, steps: seq<Step>)
    requires CutOff(s) && OneUpdater(s) && IsRun(s, steps)
    requires forall i :: 0 <= i < |steps| ==> BeginsWaiting(steps[i])
    ensures CutOff(After(s, steps)) && StillWaits(s, After(s, steps))
    decreases |steps|
  {
    hide Next, Can, CutOff, OneUpdater;
    if steps == [] {
      assert s.worker.Ended? by { EndedWhenCutOff(s); }
    } else {
      var next := Next(s, steps[0]);
      assert BeginsWaiting(steps[0]);
      StaysCutOff(s, steps[0]);
      OneUpdaterKept(s, steps[0]);
      NobodyReturns(next, steps[1..]);
      StillWaitsOn(s, next, After(s, steps));
    }
  }

  lemma EndedWhenCutOff(s: State)
    requires CutOff(s)
    ensures s.worker.Ended?
  {
  }

  // ---- A stop taken back too late can't be repaired by Open() ------------------------------

  /** UpdateWorker() on another thread replaces an ended worker only if it was told to stop or isn't wanted. */
  lemma DecidingReplaces(s: State, t: nat)
    requires s.worker.Ended? && PlaceOf(s, t).Decides?
    ensures PlaceOf(ControlNext(s, DecideWorker(t)), t).Joins?
       <==> s.queue.isStopping || PlaceOf(s, t).mustStop || !s.output.isInitialized || !WantsWorker(s.config)
  {
  }

  /** Close(), Finalize() and a configuration without a worker stop the worker of an initialized logger. */
  predicate StopsWorker(op: Op) {
    op.CloseLog? || op.FinalizeLog? || (op.ReconfigureLog? && !WantsWorker(op.config))
  }

  /** Thread t is past the wait with which these operations begin, or in the middle of replacing the worker. */
  predicate WillStop(s: State, t: nat) {
    match PlaceOf(s, t)
    case AwaitsUpTo(op, upTo) => upTo <= s.queue.lastWritten && StopsWorker(op)
    case Performs(op, _) => StopsWorker(op)
    case LocksWorker(mustStop) => mustStop
    case Decides(mustStop) => mustStop
    case place => place.Joins? || place.Launches?
  }

  /** The worker has ended with entries unwritten, and everybody takes it for running. */
  ghost predicate TakenForRunning(s: State) {
    && s.worker.Ended? && !s.queue.isStopping && s.queue.lastWritten < s.queue.lastQueued
    && s.output.isInitialized && WantsWorker(s.config) && forall t :: !WillStop(s, t)
  }

  lemma StaysTakenForRunning(s: State, step: Step)
    requires TakenForRunning(s) && OneUpdater(s) && Can(s, step)
    ensures TakenForRunning(Next(s, step)) && StillWaits(s, Next(s, step))
  {
    hide CallerNext, ControlNext, WorkerNext, TakenForRunning, StillWaits, PlaceOf;
    if CallerCan(s, step) {
      CallerStaysTaken(s, step);
    } else {
      assert s.worker.Ended? by { EndedWhenTaken(s); }
      ControlStaysTaken(s, step);
    }
  }

  lemma CallerStaysTaken(s: State, step: Step)
    requires TakenForRunning(s) && CallerCan(s, step)
    ensures TakenForRunning(CallerNext(s, step)) && StillWaits(s, CallerNext(s, step))
  {
    hide CallerNext, CallerCan, WantsWorker;
    CallerMoves(s, step);
    CallerStays(s, step);
    CallerStopsNothing(s, step);
    forall u | u != step.t ensures !WillStop(CallerNext(s, step), u) {
      assert !WillStop(s, u);
    }
  }

  lemma ControlStaysTaken(s: State, step: Step)
    requires TakenForRunning(s) && OneUpdater(s) && ControlCan(s, step)
    ensures TakenForRunning(ControlNext(s, step)) && StillWaits(s, ControlNext(s, step))
  {
    hide ControlNext, WantsWorker;
    assert !WillStop(s, step.t);
    ControlMoves(s, step);
    ControlStays(s, step);
    ControlKeepsRunning(s, step);
    hide ControlCan;
    forall u | u != step.t ensures !WillStop(ControlNext(s, step), u) {
      assert !WillStop(s, u);
    }
  }

  lemma CallerStopsNothing(s: State, step: Step)
    requires CallerCan(s, step)
    ensures !WillStop(CallerNext(s, step), step.t)
  {
    hide Enter, Admit, Deliver, MakeDraft;
  }

  lemma ControlKeepsRunning(s: State, step: Step)
    requires ControlCan(s, step) && !WillStop(s, step.t) && s.output.isInitialized && WantsWorker(s.config)
    requires s.worker.Ended? && !s.queue.isStopping && s.queue.lastWritten < s.queue.lastQueued
    ensures var s' := ControlNext(s, step);
            s'.output.isInitialized && WantsWorker(s'.config) && !WillStop(s', step.t) && !s'.queue.isStopping
  {
    hide CallerNext, WorkerNext;
    if step.Perform? {
      PerformKeepsWanting(s, step.t, step.env);
    } else if step.DecideWorker? {
      DecidingReplaces(s, step.t);
    }
  }

  lemma PerformKeepsWanting(s: State, t: nat, env: Env)
    requires ControlCan(s, Perform(t, env)) && !WillStop(s, t) && s.output.isInitialized && WantsWorker(s.config)
    ensures var s' := ControlNext(s, Perform(t, env));
            s'.output.isInitialized && WantsWorker(s'.config) && !WillStop(s', t) && s'.queue == s.queue
  {
    PerformKeepsLines(s, PlaceOf(s, t).op, env);
  }

  /** Whatever any thread does from there, Open() included, nothing more is written and nobody who waits goes on. */
  lemma {:induction false} NothingHelps(s: State, steps: seq<Step>)
    requires TakenForRunning(s) && OneUpdater(s) && IsRun(s, steps)
    ensures TakenForRunning(After(s, steps)) && StillWaits(s, After(s, steps))
    decreases |steps|
  {
    hide Next, Can, TakenForRunning, OneUpdater;
    if steps == [] {
      assert s.worker.Ended? by { EndedWhenTaken(s); }
    } else {
      var next := Next(s, steps[0]);
      StaysTakenForRunning(s, steps[0]);
      OneUpdaterKept(s, steps[0]);
      NothingHelps(next, steps[1..]);
      StillWaitsOn(s, next, After(s, steps));
    }
  }

  lemma EndedWhenTaken(s: State)
    requires TakenForRunning(s)
    ensures s.worker.Ended?
  {
  }
}
