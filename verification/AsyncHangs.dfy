/** Three runs, from a new logger, after which a call of Write() hangs, and what would free it. */
module AsyncHangs {
  import opened AsyncQueue
  import opened AsyncOutput
  import opened AsyncRun
  import opened AsyncOrder
  import opened AsyncThreads
  import opened AsyncCalls
  import opened AsyncLiveness
  import opened AsyncStranded

  // ---- Pieces of the runs ----------------------------------------------------------------

  /** Initialize() on thread 1, up to the start of the worker. */
  const STARTING := Opening(1, InitializeLog(ASYNC)) + [DecideWorker(1), LaunchWorker(1)]

  lemma StartsWorker(s: State, t: nat) returns (s': State)
    requires PlaceOf(s, t) == Decides(false) && s.worker.NoThread? && s.output.isInitialized && WantsWorker(s.config)
    ensures Reaches(s, [DecideWorker(t), LaunchWorker(t)], s')
    ensures s' == s.(queue := s.queue.(isStopping := false, interval := MakeDuty(false, true, s.config).interval),
                     worker := Running(Waiting, false), places := s'.places)
    ensures PlaceOf(s', t) == Activates(s.config.asyncEnabled) && OthersStay(s, s', t)
  {
    hide Reaches, IsRun, After, CallerCan, CallerNext, WorkerCan, WorkerNext;
    var s1 := ControlNext(s, DecideWorker(t));
    ControlGoes(s, DecideWorker(t));
    One(s, DecideWorker(t));
    s' := ControlNext(s1, LaunchWorker(t));
    ControlGoes(s1, LaunchWorker(t));
    Then(s, [DecideWorker(t)], s1, LaunchWorker(t));
    assert [DecideWorker(t)] + [LaunchWorker(t)] == [DecideWorker(t), LaunchWorker(t)];
  }

  lemma StartsLogger() returns (s: State)
    ensures Reaches(Initial(DEFAULT), STARTING, s)
    ensures s == Initial(ASYNC).(queue := EMPTY_QUEUE.(interval := 1), worker := Running(Waiting, false),
                                 output := EMPTY_OUTPUT.(isOpen := true, isInitialized := true),
                                 places := s.places, updater := HeldBy(1))
    ensures PlaceOf(s, 1) == Activates(true) && OthersStay(Initial(DEFAULT), s, 1)
  {
    hide Reaches;
    var s0 := Initial(DEFAULT);
    var m := OpensAndLocks(s0, 1, InitializeLog(ASYNC));
    s := StartsWorker(m, 1);
    RunJoins(s0, Opening(1, InitializeLog(ASYNC)), m, [DecideWorker(1), LaunchWorker(1)], s);
  }

  /** The end of that Open() or Initialize(): switches async on if the configuration says so. */
  lemma FinishesStarting(s: State, t: nat) returns (s': State)
    requires PlaceOf(s, t).Activates?
    ensures Reaches(s, [ActivateAsync(t)], s')
    ensures s' == s.(queue := SetActive(s.queue, PlaceOf(s, t).isAsync), places := s'.places, updater := Free)
    ensures PlaceOf(s', t) == Idle && OthersStay(s, s', t)
  {
    hide Reaches, IsRun, After, CallerCan, CallerNext, WorkerCan, WorkerNext;
    ControlGoes(s, ActivateAsync(t));
    One(s, ActivateAsync(t));
    s' := ControlNext(s, ActivateAsync(t));
  }

  /** The worker flushes on time, and an error handler that this calls closes the logger. */
  const CLOSING := [WorkerTakes(true), WorkerPerforms(CloseLog, CLOSES), WorkerUpdates(false)]

  lemma WakesOnTime(s: State) returns (s': State)
    requires s.worker == Running(Waiting, false) && s.queue.entries == [] && s.queue.dropped == 0
    requires s.queue.interval > 0 && !s.queue.isStopping
    ensures Reaches(s, [WorkerTakes(true)], s') && s' == s.(worker := Running(Marked, false))
  {
    WorkerGoes(s, WorkerTakes(true));
    One(s, WorkerTakes(true));
    s' := WorkerNext(s, WorkerTakes(true));
  }

  lemma ClosesOnWorker(s: State) returns (s': State)
    requires s.worker == Running(Waiting, false) && s.queue.entries == [] && s.queue.dropped == 0
    requires s.queue.interval > 0 && !s.queue.isStopping
    ensures Reaches(s, CLOSING, s')
    ensures s' == s.(queue := SetActive(s.queue.(isStopping := true, isStoppingItself := true), false),
                     worker := Running(Marked, false), output := s'.output)
  {
    hide Reaches, IsRun, After, CallerCan, CallerNext, ControlCan, ControlNext, SetActive;
    var s1 := WakesOnTime(s);
    var s2 := WorkerNext(s1, WorkerPerforms(CloseLog, CLOSES));
    WorkerGoes(s1, WorkerPerforms(CloseLog, CLOSES));
    Then(s, [WorkerTakes(true)], s1, WorkerPerforms(CloseLog, CLOSES));
    s' := WorkerNext(s2, WorkerUpdates(false));
    WorkerGoes(s2, WorkerUpdates(false));
    Then(s, [WorkerTakes(true)] + [WorkerPerforms(CloseLog, CLOSES)], s2, WorkerUpdates(false));
    assert [WorkerTakes(true)] + [WorkerPerforms(CloseLog, CLOSES)] + [WorkerUpdates(false)] == CLOSING;
  }

  lemma ReadsItsStop(s: State, isWakeDue: bool) returns (s': State)
    requires s.worker == Running(Marked, false) && s.queue.entries == [] && s.queue.dropped == 0 && s.queue.isStopping
    ensures Reaches(s, [WorkerLoops, WorkerTakes(isWakeDue)], s') && s' == s.(worker := Running(Marked, true))
  {
    hide Reaches, IsRun, After, CallerCan, CallerNext, ControlCan, ControlNext;
    var s1 := WorkerNext(s, WorkerLoops);
    WorkerGoes(s, WorkerLoops);
    One(s, WorkerLoops);
    s' := WorkerNext(s1, WorkerTakes(isWakeDue));
    WorkerGoes(s1, WorkerTakes(isWakeDue));
    Then(s, [WorkerLoops], s1, WorkerTakes(isWakeDue));
    assert [WorkerLoops] + [WorkerTakes(isWakeDue)] == [WorkerLoops, WorkerTakes(isWakeDue)];
  }

  const SYNC := ASYNC.(asyncEnabled := false, flushMode := EveryWrite)
  const PERIODIC := ASYNC.(asyncEnabled := false)

  /** A callback on the worker reconfigures the logger. */
  function Changing(config: Config): seq<Step> {
    [WorkerPerforms(ReconfigureLog(config), CLOSES), WorkerUpdates(false)]
  }

  lemma ChangesOnWorker(s: State, config: Config) returns (s': State)
    requires s.worker.Running? && s.worker.at.Marked? && s.output.isInitialized
    ensures Reaches(s, Changing(config), s') && s'.output.isInitialized
    ensures s' == s.(config := config, queue := DecideOnWorker(s.queue, MakeDuty(false, true, config)), output := s'.output)
  {
    hide Reaches, IsRun, After, CallerCan, CallerNext, ControlCan, ControlNext, DecideOnWorker;
    var s1 := WorkerNext(s, WorkerPerforms(ReconfigureLog(config), CLOSES));
    WorkerGoes(s, WorkerPerforms(ReconfigureLog(config), CLOSES));
    One(s, WorkerPerforms(ReconfigureLog(config), CLOSES));
    s' := WorkerNext(s1, WorkerUpdates(false));
    WorkerGoes(s1, WorkerUpdates(false));
    Then(s, [WorkerPerforms(ReconfigureLog(config), CLOSES)], s1, WorkerUpdates(false));
    assert [WorkerPerforms(ReconfigureLog(config), CLOSES)] + [WorkerUpdates(false)] == Changing(config);
  }

  const WRITING := [WorkerWrites([CLOSES], CLOSES), WorkerMarks]

  lemma WritesTaken(s: State) returns (s': State)
    requires s.worker.Running? && s.worker.at.Taken? && |s.worker.at.batch| == 1
    ensures Reaches(s, WRITING, s') && (s.output.isInitialized ==> s'.output.isInitialized)
    ensures s' == s.(queue := MarkWritten(s.queue, s.worker.at.batch), worker := Running(Marked, s.worker.stopFlag),
                     output := s'.output)
  {
    hide Reaches, IsRun, After, CallerCan, CallerNext, ControlCan, ControlNext, WriteQueued, MarkWritten;
    var at := s.worker.at;
    QueuedKeepsInitialized(s.output, s.config, [CLOSES], CLOSES, at.batch, at.count, at.upTo);
    var s1 := WorkerNext(s, WorkerWrites([CLOSES], CLOSES));
    WorkerGoes(s, WorkerWrites([CLOSES], CLOSES));
    One(s, WorkerWrites([CLOSES], CLOSES));
    s' := WorkerNext(s1, WorkerMarks);
    WorkerGoes(s1, WorkerMarks);
    Then(s, [WorkerWrites([CLOSES], CLOSES)], s1, WorkerMarks);
    assert [WorkerWrites([CLOSES], CLOSES)] + [WorkerMarks] == WRITING;
  }

  lemma TakesQueued(s: State) returns (s': State)
    requires s.worker == Running(Waiting, false) && s.queue.entries != [] && s.queue.dropped == 0
    ensures Reaches(s, [WorkerTakes(false)], s')
    ensures s' == s.(queue := s.queue.(entries := []),
                     worker := Running(Taken(s.queue.entries, 0, s.queue.lastQueued), s.queue.isStopping))
  {
    WorkerGoes(s, WorkerTakes(false));
    One(s, WorkerTakes(false));
    s' := WorkerNext(s, WorkerTakes(false));
  }

  lemma LoopsAgain(s: State) returns (s': State)
    requires s.worker == Running(Marked, false)
    ensures Reaches(s, [WorkerLoops], s') && s' == s.(worker := Running(Waiting, false))
  {
    WorkerGoes(s, WorkerLoops);
    One(s, WorkerLoops);
    s' := WorkerNext(s, WorkerLoops);
  }

  lemma EndsWorker(s: State) returns (s': State)
    requires s.worker == Running(Marked, true)
    ensures Reaches(s, [WorkerLoops], s') && s' == s.(worker := Ended)
  {
    WorkerGoes(s, WorkerLoops);
    One(s, WorkerLoops);
    s' := WorkerNext(s, WorkerLoops);
  }

  /** Thread 2 logs an entry that it waits for, with a worker that is about to end. */
  const HANGING := QueuedCall(2, 4, true) + [WorkerLoops]

  lemma Hangs(s: State) returns (s': State)
    requires PlaceOf(s, 2).Idle? && s.queue.isAsync && s.queue.isAsyncActive && s.queue.entries == []
    requires s.worker == Running(Marked, true) && s.config.waitAtLevel == 4
    ensures Reaches(s, HANGING, s')
    ensures s' == s.(queue := s.queue.(entries := s'.queue.entries, lastQueued := s.queue.lastQueued + 1), worker := Ended,
                     queued := s'.queued, places := s'.places, calls := s'.calls)
    ensures s'.queue.entries != [] && OthersStay(s, s', 2)
    ensures PlaceOf(s', 2).AwaitsEntry? && PlaceOf(s', 2).entry.sequence == s'.queue.lastQueued
  {
    hide Reaches;
    var m := QueuesOne(s, 2, 4, true);
    s' := EndsWorker(m);
    RunJoins(s, QueuedCall(2, 4, true), m, [WorkerLoops], s');
  }

  // ---- The runs ------------------------------------------------------------------------------

  /** The callback closes the logger while Initialize() on another thread is starting the worker: async is switched on after
      the worker was told to stop. */
  function ActivatedLate(): seq<Step> {
    STARTING + CLOSING + [ActivateAsync(1)] + [WorkerLoops, WorkerTakes(false)] + HANGING
  }

  /** Thread 2 waits for an entry in the queue of an ended worker, and nobody is going to start another one. */
  ghost predicate Hung(s: State) {
    && CutOff(s) && s.queue.isAsyncActive && s.queue.entries != []
    && PlaceOf(s, 2).AwaitsEntry? && WaitsInVain(s, 2)
  }

  lemma HangsWhenActivatedLate() returns (s: State)
    ensures Reaches(Initial(DEFAULT), ActivatedLate(), s) && Hung(s) && s.queue.isStopping
  {
    hide Reaches, CallerCan, CallerNext, ControlCan, ControlNext, WorkerCan, WorkerNext;
    var s0 := Initial(DEFAULT);
    var s1 := StartsLogger();
    var s2 := ClosesOnWorker(s1);
    RunJoins(s0, STARTING, s1, CLOSING, s2);
    assert PlaceOf(s2, 1) == PlaceOf(s1, 1);
    var s3 := FinishesStarting(s2, 1);
    RunJoins(s0, STARTING + CLOSING, s2, [ActivateAsync(1)], s3);
    var s4 := ReadsItsStop(s3, false);
    RunJoins(s0, STARTING + CLOSING + [ActivateAsync(1)], s3, [WorkerLoops, WorkerTakes(false)], s4);
    assert PlaceOf(s4, 2) == PlaceOf(s3, 2) == PlaceOf(s2, 2) == PlaceOf(s1, 2) == Idle;
    s := Hangs(s4);
    RunJoins(s0, STARTING + CLOSING + [ActivateAsync(1)] + [WorkerLoops, WorkerTakes(false)], s4, HANGING, s);
    forall t ensures !WillUpdate(s, t) {
      assert t != 2 ==> PlaceOf(s, t) == PlaceOf(s4, t) == PlaceOf(s3, t);
      assert t != 1 ==> PlaceOf(s3, t) == PlaceOf(s2, t) == PlaceOf(s1, t) == PlaceOf(s0, t);
    }
  }

  /** Two entries: the callback for the first turns async off, so that the worker reads, with the second one in its next
      batch, that it should stop; the callback for the second wants a worker again. */
  function Resuming(config: Config): seq<Step> {
    QueuedCall(2, 1, true) + [WorkerTakes(false)] + QueuedCall(2, 1, true) + WRITING + Changing(SYNC)
      + [WorkerLoops] + [WorkerTakes(false)] + WRITING + Changing(config)
  }

  /** An initialized logger with async on and a worker with nothing to do. */
  ghost predicate AtRest(s: State, lastWritten: nat) {
    && s.worker == Running(Waiting, false) && s.updater.Free? && s.config == ASYNC && s.output.isInitialized
    && s.queue.entries == [] && s.queue.lastQueued == s.queue.lastWritten == lastWritten && s.queue.dropped == 0
    && s.queue.isAsync && s.queue.isAsyncActive && !s.queue.isStopping
    && forall t :: PlaceOf(s, t) == Idle
  }

  /** The first half of that, up to the stop. */
  lemma StopsItself(s: State) returns (s': State)
    requires AtRest(s, 0)
    ensures Reaches(s, QueuedCall(2, 1, true) + [WorkerTakes(false)] + QueuedCall(2, 1, true) + WRITING + Changing(SYNC), s')
    ensures s'.output.isInitialized && s'.worker == Running(Marked, false)
    ensures s'.updater.Free? && forall t :: PlaceOf(s', t) == Idle
    ensures var q := s'.queue; q.isStopping && q.isStoppingItself && !q.isAsyncActive && q.dropped == 0
    ensures |s'.queue.entries| == 1 && s'.queue.entries[0].sequence == s'.queue.lastQueued == 2 && s'.queue.lastWritten == 1
  {
    hide Reaches, CallerCan, CallerNext, ControlCan, ControlNext, WorkerCan, WorkerNext;
    var call := QueuedCall(2, 1, true);
    var s1 := QueuesOne(s, 2, 1, true);
    var s2 := TakesQueued(s1);
    RunJoins(s, call, s1, [WorkerTakes(false)], s2);
    assert PlaceOf(s2, 2) == PlaceOf(s1, 2);
    var s3 := QueuesOne(s2, 2, 1, true);
    RunJoins(s, call + [WorkerTakes(false)], s2, call, s3);
    var s4 := WritesTaken(s3);
    RunJoins(s, call + [WorkerTakes(false)] + call, s3, WRITING, s4);
    s' := ChangesOnWorker(s4, SYNC);
    RunJoins(s, call + [WorkerTakes(false)] + call + WRITING, s4, Changing(SYNC), s');
    forall t ensures PlaceOf(s', t) == Idle {
      assert PlaceOf(s', t) == PlaceOf(s4, t) == PlaceOf(s3, t);
      assert t != 2 ==> PlaceOf(s3, t) == PlaceOf(s2, t) == PlaceOf(s1, t) == PlaceOf(s, t);
    }
  }

  /** The second half: the worker is wanted again, but is going to end. */
  lemma ResumesLate(s: State, config: Config) returns (s': State)
    requires AtRest(s, 0) && config in {ASYNC, PERIODIC}
    ensures Reaches(s, Resuming(config), s') && s'.output.isInitialized
    ensures s'.worker == Running(Marked, true) && s'.config == config && s'.updater.Free? && forall t :: PlaceOf(s', t) == Idle
    ensures var q := s'.queue; q.entries == [] && q.lastQueued == q.lastWritten && !q.isStopping
    ensures s'.queue.isAsyncActive == s'.queue.isAsync == config.asyncEnabled
  {
    hide Reaches, CallerCan, CallerNext, ControlCan, ControlNext, WorkerCan, WorkerNext;
    var first := QueuedCall(2, 1, true) + [WorkerTakes(false)] + QueuedCall(2, 1, true) + WRITING + Changing(SYNC);
    var s1 := StopsItself(s);
    var s2 := LoopsAgain(s1);
    RunJoins(s, first, s1, [WorkerLoops], s2);
    var s3 := TakesQueued(s2);
    RunJoins(s, first + [WorkerLoops], s2, [WorkerTakes(false)], s3);
    var s4 := WritesTaken(s3);
    RunJoins(s, first + [WorkerLoops] + [WorkerTakes(false)], s3, WRITING, s4);
    s' := ChangesOnWorker(s4, config);
    RunJoins(s, first + [WorkerLoops] + [WorkerTakes(false)] + WRITING, s4, Changing(config), s');
    forall t ensures PlaceOf(s', t) == Idle {
      assert PlaceOf(s', t) == PlaceOf(s1, t);
    }
  }

  lemma RestsAfterStart() returns (s: State)
    ensures Reaches(Initial(DEFAULT), STARTING + [ActivateAsync(1)], s) && AtRest(s, 0)
  {
    hide Reaches, CallerCan, CallerNext, ControlCan, ControlNext, WorkerCan, WorkerNext;
    var s0 := Initial(DEFAULT);
    var s1 := StartsLogger();
    s := FinishesStarting(s1, 1);
    RunJoins(s0, STARTING, s1, [ActivateAsync(1)], s);
    forall t ensures PlaceOf(s, t) == Idle {
      assert t != 1 ==> PlaceOf(s, t) == PlaceOf(s1, t) == PlaceOf(s0, t);
    }
  }

  /** Async is on again, with a worker that ends: the next entry stays in the queue. */
  function ResumedLate(): seq<Step> {
    STARTING + [ActivateAsync(1)] + Resuming(ASYNC) + HANGING
  }

  lemma HangsWhenResumedLate() returns (s: State)
    ensures Reaches(Initial(DEFAULT), ResumedLate(), s) && Hung(s) && TakenForRunning(s)
  {
    hide Reaches, CallerCan, CallerNext, ControlCan, ControlNext, WorkerCan, WorkerNext;
    var s1 := RestsAfterStart();
    var s2 := ResumesLate(s1, ASYNC);
    RunJoins(Initial(DEFAULT), STARTING + [ActivateAsync(1)], s1, Resuming(ASYNC), s2);
    s := Hangs(s2);
    RunJoins(Initial(DEFAULT), STARTING + [ActivateAsync(1)] + Resuming(ASYNC), s2, HANGING, s);
    forall t ensures !WillUpdate(s, t) && !WillStop(s, t) {
      assert t != 2 ==> PlaceOf(s, t) == PlaceOf(s2, t);
    }
  }

  /** The worker was resumed for its periodic flush only, which nobody notices to be missing until Reconfigure() on
      another thread switches async on and keeps the ended worker. */
  function SwitchedOnLate(): seq<Step> {
    STARTING + [ActivateAsync(1)] + Resuming(PERIODIC) + Reconfiguring(3, ASYNC) + HANGING
  }

  lemma HangsWhenSwitchedOnLate() returns (s: State)
    ensures Reaches(Initial(DEFAULT), SwitchedOnLate(), s) && Hung(s) && TakenForRunning(s)
  {
    hide Reaches, CallerCan, CallerNext, ControlCan, ControlNext, WorkerCan, WorkerNext;
    var s1 := RestsAfterStart();
    var s2 := ResumesLate(s1, PERIODIC);
    RunJoins(Initial(DEFAULT), STARTING + [ActivateAsync(1)], s1, Resuming(PERIODIC), s2);
    var s3 := ReconfiguresToAsync(s2, 3, ASYNC);
    RunJoins(Initial(DEFAULT), STARTING + [ActivateAsync(1)] + Resuming(PERIODIC), s2, Reconfiguring(3, ASYNC), s3);
    assert PlaceOf(s3, 2) == PlaceOf(s2, 2) == Idle;
    s := Hangs(s3);
    RunJoins(Initial(DEFAULT), STARTING + [ActivateAsync(1)] + Resuming(PERIODIC) + Reconfiguring(3, ASYNC), s3,
             HANGING, s);
    forall t ensures !WillUpdate(s, t) && !WillStop(s, t) {
      assert t != 2 ==> PlaceOf(s, t) == PlaceOf(s3, t);
      assert t != 3 ==> PlaceOf(s3, t) == PlaceOf(s2, t);
    }
  }

  // ---- What frees the callers -----------------------------------------------------------------

  lemma JoinsEnded(s: State, t: nat) returns (s': State)
    requires PlaceOf(s, t) == Decides(false) && s.worker.Ended? && s.queue.isStopping
    ensures Reaches(s, [DecideWorker(t), JoinWorker(t)], s')
    ensures s' == s.(queue := s'.queue, worker := NoThread, places := s'.places)
    ensures s'.queue == s.queue.(isStoppingItself := false, isAsyncActive := false, isAsync := s'.queue.isAsync)
    ensures PlaceOf(s', t) == Decides(false) && OthersStay(s, s', t)
  {
    hide Reaches, IsRun, After, CallerCan, CallerNext, WorkerCan, WorkerNext;
    var s1 := ControlNext(s, DecideWorker(t));
    ControlGoes(s, DecideWorker(t));
    One(s, DecideWorker(t));
    s' := ControlNext(s1, JoinWorker(t));
    ControlGoes(s1, JoinWorker(t));
    Then(s, [DecideWorker(t)], s1, JoinWorker(t));
    assert [DecideWorker(t)] + [JoinWorker(t)] == [DecideWorker(t), JoinWorker(t)];
  }

  /** Open() on thread t when the worker has ended: joins it, and starts another one. */
  function Restarting(t: nat): seq<Step> {
    Opening(t, OpenLog) + [DecideWorker(t), JoinWorker(t)] + [DecideWorker(t), LaunchWorker(t)] + [ActivateAsync(t)]
  }

  lemma Restarts(s: State, t: nat) returns (s': State)
    requires t != WORKER && PlaceOf(s, t).Idle? && s.updater.Free? && s.worker.Ended? && s.queue.isStopping
    requires WantsWorker(s.config)
    ensures Reaches(s, Restarting(t), s') && s'.queue.lastQueued == s.queue.lastQueued
    ensures Served(s') && OthersStay(s, s', t)
  {
    hide Reaches;
    var opening := Opening(t, OpenLog);
    var joining, starting := [DecideWorker(t), JoinWorker(t)], [DecideWorker(t), LaunchWorker(t)];
    var s1 := OpensAndLocks(s, t, OpenLog);
    var s2 := JoinsEnded(s1, t);
    RunJoins(s, opening, s1, joining, s2);
    var s3 := StartsWorker(s2, t);
    RunJoins(s, opening + joining, s2, starting, s3);
    s' := FinishesStarting(s3, t);
    RunJoins(s, opening + joining + starting, s3, [ActivateAsync(t)], s');
  }

  /** If the stop wasn't taken back, Open() on any idle thread, and then the worker, write everything that was queued. */
  lemma OpenHelps(s: State, t: nat) returns (steps: seq<Step>, s': State)
    requires Ordered(s) && s.worker.Ended? && s.queue.isStopping && s.updater.Free? && WantsWorker(s.config)
    requires t != WORKER && PlaceOf(s, t).Idle?
    ensures Reaches(s, Restarting(t) + steps, s') && forall i :: 0 <= i < |steps| ==> IsWorkerStep(steps[i])
    ensures s'.queue.lastWritten == s'.queue.lastQueued == s.queue.lastQueued
  {
    hide Reaches;
    var m := Restarts(s, t);
    assert Counters(m) by { OrderAfter(s, Restarting(t), m); }
    steps, s' := WorkerSettles(m);
    RunJoins(s, Restarting(t), m, steps, s');
  }

  lemma OrderAfter(s: State, steps: seq<Step>, s': State)
    requires Ordered(s) && Reaches(s, steps, s')
    ensures Ordered(s')
  {
    RunKeepsOrder(s, steps);
  }
}
