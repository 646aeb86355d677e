/** Every queued entry has a worker that will write it, unless a run takes one of two steps; and what a worker that is
    still there does for everybody who waits. */
module AsyncLiveness {
  import opened AsyncQueue
  import opened AsyncOutput
  import opened AsyncRun
  import opened AsyncOrder
  import opened AsyncThreads
  import opened AsyncDelivery
  import opened AsyncCalls

  /** The worker will look at the queue again before it ends. */
  predicate WillTake(w: Worker) {
    w.Running? && !w.stopFlag
  }

  /** Entries are queued only for a worker that will take them, and a worker not told to stop goes on. */
  ghost predicate Served(s: State) {
    && (s.queue.isAsyncActive ==> !s.queue.isStopping && WillTake(s.worker))
    && (s.queue.entries != [] ==> WillTake(s.worker))
    && (!s.queue.isStopping && !s.worker.NoThread? ==> WillTake(s.worker))
  }

  /** The two steps that leave async on, or the stop undone, with a worker that is about to end: switching async on for
      a worker that told itself to stop meanwhile, and a callback undoing the worker's own stop after its loop read it. */
  predicate Strands(s: State, step: Step) {
    || (step.ActivateAsync? && PlaceOf(s, step.t).Activates? && PlaceOf(s, step.t).isAsync && s.queue.isStopping)
    || (step.WorkerUpdates? && s.worker.Running? && s.worker.stopFlag && s.queue.isStopping && s.queue.isStoppingItself
        && MakeDuty(step.mustStop, s.output.isInitialized, s.config).IsWanted())
  }

  lemma CallerServed(s: State, step: Step)
    requires Served(s) && CallerCan(s, step)
    ensures Served(CallerNext(s, step))
  {
    hide Deliver, MakeDraft;
  }

  lemma ControlServed(s: State, step: Step)
    requires Served(s) && OneUpdater(s) && ControlCan(s, step)
    ensures Served(ControlNext(s, step)) <==> !Strands(s, step)
  {
    match step
    case Perform(t, env) => PerformKeepsLines(s, PlaceOf(s, t).op, env);
    case _ =>
  }

  lemma WorkerServed(s: State, step: Step)
    requires Served(s) && WorkerCan(s, step)
    ensures Served(WorkerNext(s, step)) <==> !Strands(s, step)
  {
    match step
    case WorkerPerforms(op, env) => PerformKeepsLines(s, op, env);
    case _ =>
  }

  /** Exactly those two steps lose the worker. */
  lemma StepServed(s: State, step: Step)
    requires Served(s) && OneUpdater(s) && Can(s, step)
    ensures Served(Next(s, step)) <==> !Strands(s, step)
  {
    hide Served, Strands, CallerNext, ControlNext, WorkerNext;
    if CallerCan(s, step) {
      CallerServed(s, step);
      CallersStrandNobody(s, step);
    } else if ControlCan(s, step) {
      ControlServed(s, step);
    } else {
      WorkerServed(s, step);
    }
  }

  lemma CallersStrandNobody(s: State, step: Step)
    requires CallerCan(s, step)
    ensures !Strands(s, step)
  {
  }

  ghost predicate NeverStrands(s: State, steps: seq<Step>)
    requires IsRun(s, steps)
    decreases |steps|
  {
    steps != [] ==> !Strands(s, steps[0]) && NeverStrands(Next(s, steps[0]), steps[1..])
  }

  ghost predicate AlwaysServed(s: State, steps: seq<Step>)
    requires IsRun(s, steps)
    decreases |steps|
  {
    Served(s) && (steps != [] ==> AlwaysServed(Next(s, steps[0]), steps[1..]))
  }

  /** A run keeps a worker for every queued entry, at every moment, exactly if it takes neither of the two steps. */
  lemma {:induction false} RunServed(s: State, steps: seq<Step>)
    requires Served(s) && OneUpdater(s) && IsRun(s, steps)
    ensures AlwaysServed(s, steps) <==> NeverStrands(s, steps)
    ensures NeverStrands(s, steps) ==> Served(After(s, steps))
    decreases |steps|
  {
    hide Served, Strands, OneUpdater, Next, Can;
    if steps != [] {
      StepServed(s, steps[0]);
      OneUpdaterKept(s, steps[0]);
      if Strands(s, steps[0]) {
        assert !AlwaysServed(Next(s, steps[0]), steps[1..]);
      } else {
        RunServed(Next(s, steps[0]), steps[1..]);
      }
    }
  }

  // ---- Runs without updates from the worker's own thread ----------------------------

  /** A thread that is starting a worker finds it not told to stop. */
  ghost predicate StartsClean(s: State) {
    forall t :: PlaceOf(s, t).Launches? || PlaceOf(s, t).Activates? ==> !s.queue.isStopping
  }

  lemma CallerKeepsStop(s: State, s': State, step: Step)
    requires CallerCan(s, step) && s' == CallerNext(s, step)
    ensures s'.queue.isStopping == s.queue.isStopping && s'.queue.isStoppingItself == s.queue.isStoppingItself
  {
    hide CallerNext, CallerCan;
    if IsSection(step) {
      SectionAdmits(s, step);
      hide SectionOf;
    } else if step.WriteDirect? {
      DirectDelivers(s, step);
      hide Deliver;
    } else {
      OthersAreQuiet(s, step);
    }
  }

  lemma StepStartsClean(s: State, step: Step)
    requires StartsClean(s) && OneUpdater(s) && Can(s, step) && !step.WorkerUpdates?
    ensures StartsClean(Next(s, step))
  {
    hide WorkerNext, CallerNext, ControlNext, CallerCan, ControlCan, WorkerCan;
    var s' := Next(s, step);
    if CallerCan(s, step) {
      CallerMoves(s, step);
      CallerKeepsStop(s, s', step);
    } else if ControlCan(s, step) {
      ControlMoves(s, step);
      ControlStops(s, s', step);
    } else {
      WorkerMoves(s, step);
      WorkerKeepsStop(s, s', step);
      assert forall t :: PlaceOf(s', t) == PlaceOf(s, t);
    }
  }

  lemma ControlStops(s: State, s': State, step: Step)
    requires ControlCan(s, step) && s' == ControlNext(s, step)
    ensures s'.queue.isStopping && !s.queue.isStopping ==> PlaceOf(s', step.t).Joins?
    ensures PlaceOf(s', step.t).Launches? ==> !s'.queue.isStopping
    ensures PlaceOf(s', step.t).Activates? ==> PlaceOf(s, step.t).Launches? && s'.queue == s.queue
  {
    match step
    case Perform(t, env) => PerformKeepsLines(s, PlaceOf(s, t).op, env);
    case _ =>
  }

  lemma WorkerKeepsStop(s: State, s': State, step: Step)
    requires WorkerCan(s, step) && s' == WorkerNext(s, step) && !step.WorkerUpdates?
    ensures s'.queue.isStopping == s.queue.isStopping
  {
    match step
    case WorkerPerforms(op, env) => PerformKeepsLines(s, op, env);
    case _ =>
  }

  /** Callbacks that neither stop nor restart the worker strand nobody. */
  lemma {:induction false} QuietRunStrandsNobody(s: State, steps: seq<Step>)
    requires StartsClean(s) && OneUpdater(s) && IsRun(s, steps)
    requires forall i :: 0 <= i < |steps| ==> !steps[i].WorkerUpdates?
    ensures NeverStrands(s, steps)
    decreases |steps|
  {
    hide Next, Can;
    if steps != [] {
      StepStartsClean(s, steps[0]);
      OneUpdaterKept(s, steps[0]);
      QuietRunStrandsNobody(Next(s, steps[0]), steps[1..]);
    }
  }

  // ---- What the threads in a wait rely on --------------------------------------------

  /** A caller that waits for room has a capacity of at least one, and the worker somebody joins was told to stop by
      another thread, which it can't undo. */
  ghost predicate WaitsEnd(s: State) {
    forall t ::
      match PlaceOf(s, t)
      case Enters(draft) => draft.capacity >= 1
      case AwaitsRoom(draft) => draft.capacity >= 1
      case Joins(_) => s.queue.isStopping && !s.queue.isStoppingItself
      case _ => true
  }

  lemma CallerWaitsEnd(s: State, s': State, step: Step)
    requires CallerCan(s, step) && s' == CallerNext(s, step)
    requires var p := PlaceOf(s, step.t); p.Enters? || p.AwaitsRoom? ==> p.draft.capacity >= 1
    ensures var p := PlaceOf(s', step.t); p.Enters? || p.AwaitsRoom? ==> p.draft.capacity >= 1
  {
    hide Deliver, Enter, Admit;
  }

  lemma ControlWaitsEnd(s: State, s': State, step: Step)
    requires ControlCan(s, step) && s' == ControlNext(s, step)
    ensures var p := PlaceOf(s', step.t);
            && !p.Enters? && !p.AwaitsRoom?
            && (p.Joins? ==> s'.queue.isStopping && !s'.queue.isStoppingItself)
    ensures !HoldsUpdate(PlaceOf(s, step.t)) ==>
              s'.queue.isStopping == s.queue.isStopping && s'.queue.isStoppingItself == s.queue.isStoppingItself
  {
    match step
    case Perform(t, env) => PerformKeepsLines(s, PlaceOf(s, t).op, env);
    case _ =>
  }

  lemma WorkerWaitsEnd(s: State, s': State, step: Step)
    requires WorkerCan(s, step) && s' == WorkerNext(s, step) && s.queue.isStopping && !s.queue.isStoppingItself
    ensures s'.queue.isStopping && !s'.queue.isStoppingItself
  {
    match step
    case WorkerPerforms(op, env) => PerformKeepsLines(s, op, env);
    case _ =>
  }

  lemma StepWaitsEnd(s: State, step: Step)
    requires WaitsEnd(s) && OneUpdater(s) && Can(s, step)
    ensures WaitsEnd(Next(s, step))
  {
    hide CallerNext, ControlNext, WorkerNext, CallerCan, ControlCan, WorkerCan;
    var s' := Next(s, step);
    if CallerCan(s, step) {
      CallerMoves(s, step);
      CallerKeepsStop(s, s', step);
      CallerWaitsEnd(s, s', step);
    } else if ControlCan(s, step) {
      ControlMoves(s, step);
      ControlWaitsEnd(s, s', step);
    } else {
      WorkerMoves(s, step);
      assert forall t :: PlaceOf(s', t) == PlaceOf(s, t);
      if s.queue.isStopping && !s.queue.isStoppingItself { WorkerWaitsEnd(s, s', step); }
    }
  }

  lemma {:induction false} RunWaitsEnd(s: State, steps: seq<Step>)
    requires WaitsEnd(s) && OneUpdater(s) && IsRun(s, steps)
    ensures WaitsEnd(After(s, steps))
    decreases |steps|
  {
    hide Next, Can, WaitsEnd, OneUpdater;
    if steps != [] {
      StepWaitsEnd(s, steps[0]);
      OneUpdaterKept(s, steps[0]);
      RunWaitsEnd(Next(s, steps[0]), steps[1..]);
    }
  }

  // ---- The worker alone frees every waiting thread ------------------------------------

  predicate IsWorkerStep(step: Step) {
    step.WorkerTakes? || step.WorkerWrites? || step.WorkerMarks? || step.WorkerLoops?
  }

  const OPEN_ENV := Env(false, false, 0, false, false)

  /** The next step of the worker's own loop. */
  function LoopStep(s: State): Step
    requires s.worker.Running?
  {
    match s.worker.at
    case Waiting => WorkerTakes(false)
    case Taken(batch, _, _) => WorkerWrites(seq(|batch|, _ => OPEN_ENV), OPEN_ENV)
    case Wrote(_) => WorkerMarks
    case Marked => WorkerLoops
  }

  /** Everything queued is written, and a worker told to stop has ended. */
  predicate Settled(s: State) {
    s.queue.lastWritten == s.queue.lastQueued && (s.queue.isStopping ==> !s.worker.Running?)
  }

  /** How many steps of its loop the worker is away from that. */
  function StepsLeft(s: State): nat {
    if !s.worker.Running? then 0
    else if s.queue.isStopping then
      (match s.worker.at
       case Waiting => 4
       case Taken(_, _, _) => if s.worker.stopFlag then 3 else 7
       case Wrote(_) => if s.worker.stopFlag then 2 else 6
       case Marked => if s.worker.stopFlag then 1 else 5)
    else
      var more := if s.queue.entries == [] then 0 else 4;
      match s.worker.at
      case Waiting => if more > 0 then 3 else 0
      case Taken(_, _, _) => 2 + more
      case Wrote(_) => 1 + more
      case Marked => more
  }

  lemma NothingLeft(s: State)
    requires Counters(s) && Served(s) && StepsLeft(s) == 0
    ensures Settled(s)
  {
    assert |InFlight(s.worker) + s.queue.entries| == s.queue.lastQueued - s.queue.lastWritten;
  }

  /** What a step of the loop leaves alone. */
  ghost predicate SameLogger(s: State, s': State) {
    && s' == s.(queue := s'.queue, output := s'.output, worker := s'.worker)
    && (s'.worker.NoThread? ==> s.worker.NoThread?)
    && s'.queue == s.queue.(entries := s'.queue.entries, dropped := s'.queue.dropped, lastWritten := s'.queue.lastWritten,
                            isAsync := s'.queue.isAsync)
  }

  lemma LoopStepSettles(s: State)
    requires Served(s) && Counters(s) && StepsLeft(s) > 0
    ensures s.worker.Running? && WorkerCan(s, LoopStep(s)) && SameLogger(s, WorkerNext(s, LoopStep(s)))
    ensures StepsLeft(WorkerNext(s, LoopStep(s))) < StepsLeft(s) && !Strands(s, LoopStep(s))
  {
    hide WriteQueued, WrittenEntries;
  }

  lemma {:induction false} WorkerSettles(s: State) returns (steps: seq<Step>, s': State)
    requires Counters(s) && Served(s)
    ensures |steps| <= StepsLeft(s) && (forall i :: 0 <= i < |steps| ==> IsWorkerStep(steps[i]))
    ensures Reaches(s, steps, s') && SameLogger(s, s') && Settled(s') && Counters(s') && Served(s')
    decreases StepsLeft(s)
  {
    hide Served, Counters, WorkerNext, WorkerCan, StepsLeft, Strands;
    if StepsLeft(s) == 0 {
      NothingLeft(s);
      steps, s' := [], s;
    } else {
      LoopStepSettles(s);
      var step := LoopStep(s);
      WorkerKeepsCounters(s, step);
      WorkerServed(s, step);
      var next := WorkerNext(s, step);
      assert Next(s, step) == next;
      One(s, step);
      steps, s' := WorkerSettles(next);
      RunJoins(s, [step], next, steps, s');
      steps := [step] + steps;
    }
  }

  /** Thread t isn't waiting, or what it waits for is there. */
  predicate CanGoOn(s: State, t: nat) {
    match PlaceOf(s, t)
    case AwaitsRoom(_) => CallerCan(s, FindRoom(t))
    case AwaitsQueue(_) => CallerCan(s, SeeDrained(t))
    case AwaitsEntry(_) => CallerCan(s, SeeWritten(t))
    case AwaitsUpTo(_, _) => ControlCan(s, SeeUpTo(t))
    case Joins(_) => ControlCan(s, JoinWorker(t))
    case _ => true
  }

  /** In a served state, at most seven steps of the worker alone write everything queued and end every wait for room,
      for the queue to drain, for an entry, for what was queued, or for a stopped worker. Only the worker's lock is left
      to wait for, and the thread that holds it can go on. */
  lemma WorkerFreesEveryone(s: State) returns (steps: seq<Step>, s': State)
    requires Delivered(s) && Served(s) && WaitsEnd(s)
    ensures |steps| <= 7 && (forall i :: 0 <= i < |steps| ==> IsWorkerStep(steps[i])) && Reaches(s, steps, s')
    ensures s'.queue.lastWritten == s.queue.lastQueued == s'.queue.lastQueued && s'.places == s.places
    ensures forall t :: CanGoOn(s', t)
  {
    hide Served, Counters, OneUpdater, Waits, WaitsEnd, OutputOk, CanGoOn, PlaceOf;
    steps, s' := WorkerSettles(s);
    assert Ordered(s);
    SettledFrees(s, s');
  }

  lemma SettledFrees(s: State, s': State)
    requires Waits(s) && OneUpdater(s) && WaitsEnd(s) && Counters(s)
    requires SameLogger(s, s') && Settled(s') && Counters(s') && Served(s')
    ensures forall t :: CanGoOn(s', t)
  {
    assert |InFlight(s'.worker) + s'.queue.entries| == s'.queue.lastQueued - s'.queue.lastWritten;
    assert forall t :: PlaceOf(s', t) == PlaceOf(s, t);
  }

  /** A worker ends with nothing left to write and async off, so that entries go straight to the output again. */
  lemma EndedMeansWritten(s: State)
    requires Counters(s) && Served(s) && !s.worker.Running?
    ensures s.queue.lastWritten == s.queue.lastQueued && !s.queue.isAsync
  {
    assert |InFlight(s.worker) + s.queue.entries| == s.queue.lastQueued - s.queue.lastWritten;
  }
}
