/** What the configuration decides about queuing an entry: which ones a full queue drops, and which ones are waited for. */
module AsyncAdmission {
  import opened AsyncQueue
  import opened AsyncOutput
  import opened AsyncRun
  import opened AsyncOrder

  // ---- One record ----------------------------------------------------------------------

  /** The queue holds as many entries as the capacity, or one if that is less. */
  predicate IsFull(q: Queue, config: Config) {
    q.entries != [] && |q.entries| >= config.queueCapacity
  }

  /** What becomes of the record: only a full queue with DropNewest drops it, unless its level asks to be waited for. */
  predicate IsDecided(s: State, s': State, t: nat, record: Record, config: Config) {
    var isWaitedFor := record.level >= config.waitAtLevel;
    var entry := Entry(s.queue.lastQueued + 1, record, isWaitedFor);
    if !s.queue.isAsyncActive then
      s' == Move(s, t, if s.queue.lastWritten >= s.queue.lastQueued then WritesDirectly(record, |s.drops|) else AwaitsQueue(record))
    else if !IsFull(s.queue, config) then
      s' == Move(s.(queue := s.queue.(entries := s.queue.entries + [entry], lastQueued := entry.sequence),
                    queued := s.queued + [entry]),
                 t, if isWaitedFor then AwaitsEntry(entry) else Idle)
    else if config.dropNewest && !isWaitedFor then
      s' == Move(s.(queue := s.queue.(dropped := s.queue.dropped + 1), drops := s.drops + [Drop(record, s.queue.lastQueued)]),
                 t, Idle)
    else
      PlaceOf(s', t).AwaitsRoom? && s' == s.(places := s.places[t := PlaceOf(s', t)])
  }

  /** A record formatted with the configuration of 's' comes to the queue of 'm'. */
  lemma QueuingDecides(s: State, m: State, t: nat)
    requires CallerCan(s, Format(t)) && PlaceOf(m, t) == PlaceOf(CallerNext(s, Format(t)), t)
    ensures CallerCan(m, EnterQueue(t))
    ensures IsDecided(m, CallerNext(m, EnterQueue(t)), t, PlaceOf(s, t).record, s.config)
  {
    hide Deliver;
  }

  /** Or, having waited for room, finds it: just as if it came only then. */
  lemma RoomDecides(s: State, m: State, t: nat)
    requires CallerCan(s, Format(t))
    requires PlaceOf(m, t).AwaitsRoom? && Enters(PlaceOf(m, t).draft) == PlaceOf(CallerNext(s, Format(t)), t)
    ensures CallerCan(m, FindRoom(t)) <==> !m.queue.isAsyncActive || !IsFull(m.queue, s.config)
    ensures CallerCan(m, FindRoom(t)) ==> IsDecided(m, CallerNext(m, FindRoom(t)), t, PlaceOf(s, t).record, s.config)
  {
    hide Deliver;
  }

  // ---- Every run -------------------------------------------------------------------------

  predicate OpKeepsPolicy(op: Op, config: Config) {
    op.InitializeLog? || op.ReconfigureLog? ==>
      op.config.waitAtLevel == config.waitAtLevel && op.config.dropNewest == config.dropNewest
  }

  /** No operation brings another WaitAtLevel or OverflowPolicy. */
  predicate KeepsPolicy(step: Step, config: Config) {
    match step
    case Begin(_, op) => OpKeepsPolicy(op, config)
    case WorkerPerforms(op, _) => OpKeepsPolicy(op, config)
    case _ => true
  }

  predicate DraftFollows(draft: Draft, config: Config) {
    && draft.mustFlush == (draft.record.level >= config.waitAtLevel)
    && draft.mayDrop == (config.dropNewest && draft.record.level < config.waitAtLevel)
  }

  predicate PlaceFollows(p: Place, config: Config) {
    match p
    case Enters(draft) => DraftFollows(draft, config)
    case AwaitsRoom(draft) => DraftFollows(draft, config) && !draft.mayDrop
    case AwaitsEntry(entry) => entry.record.level >= config.waitAtLevel
    case AwaitsUpTo(op, _) => OpKeepsPolicy(op, config)
    case Performs(op, _) => OpKeepsPolicy(op, config)
    case _ => true
  }

  ghost predicate HistoryFollows(s: State, config: Config) {
    && (forall d :: d in s.drops ==> config.dropNewest && d.record.level < config.waitAtLevel)
    && (forall e :: e in s.queued && e.record.thread != WORKER ==> e.mustFlush == (e.record.level >= config.waitAtLevel))
  }

  ghost predicate Follows(s: State, config: Config) {
    && s.config.waitAtLevel == config.waitAtLevel && s.config.dropNewest == config.dropNewest
    && (forall t :: PlaceFollows(PlaceOf(s, t), config))
    && HistoryFollows(s, config)
  }

  lemma AdmittedFollows(s: State, t: nat, draft: Draft, admission: Admission, queue: Queue, config: Config)
    requires HistoryFollows(s, config) && DraftFollows(draft, config) && IsAdmission(s.queue, draft, admission, queue)
    ensures var s' := Admitted(s, t, draft, admission, queue);
      HistoryFollows(s', config) && PlaceFollows(PlaceOf(s', t), config) && s'.config == s.config
  {
  }

  lemma CallerFollows(s: State, step: Step, config: Config)
    requires Follows(s, config) && CallerCan(s, step)
    ensures var s' := CallerNext(s, step);
      HistoryFollows(s', config) && PlaceFollows(PlaceOf(s', step.t), config) && s'.config == s.config
  {
    assert PlaceFollows(PlaceOf(s, step.t), config);
    hide CallerNext, CallerCan, IsAdmission, Admitted, SectionOf, Deliver, HistoryFollows;
    if IsSection(step) {
      SectionAdmits(s, step);
      var draft := DraftOf(PlaceOf(s, step.t));
      var (admission, queue) := SectionOf(s.queue, draft, step);
      AdmittedFollows(s, step.t, draft, admission, queue, config);
    } else if step.WriteDirect? {
      DirectDelivers(s, step);
      SameHistoryFollows(s, CallerNext(s, step), config);
    } else {
      OthersAreQuiet(s, step);
      OthersFollow(s, step, config);
      SameHistoryFollows(s, CallerNext(s, step), config);
    }
  }

  lemma OthersFollow(s: State, step: Step, config: Config)
    requires Follows(s, config) && CallerCan(s, step) && !IsSection(step) && !step.WriteDirect?
    ensures PlaceFollows(PlaceOf(CallerNext(s, step), step.t), config)
  {
    hide Enter, Admit, Deliver, HistoryFollows;
  }

  lemma ControlFollows(s: State, step: Step, config: Config)
    requires Follows(s, config) && ControlCan(s, step) && KeepsPolicy(step, config)
    ensures var s' := ControlNext(s, step);
      && s'.drops == s.drops && s'.queued == s.queued && PlaceFollows(PlaceOf(s', step.t), config)
      && s'.config.waitAtLevel == config.waitAtLevel && s'.config.dropNewest == config.dropNewest
  {
    assert PlaceFollows(PlaceOf(s, step.t), config);
    hide Decide, MakeDuty, HistoryFollows;
    match step
    case Perform(t, env) => PerformKeepsLines(s, PlaceOf(s, t).op, env);
    case _ =>
  }

  lemma WorkerFollows(s: State, step: Step, config: Config)
    requires Follows(s, config) && WorkerCan(s, step) && KeepsPolicy(step, config)
    ensures var s' := WorkerNext(s, step);
      && HistoryFollows(s', config)
      && s'.config.waitAtLevel == config.waitAtLevel && s'.config.dropNewest == config.dropNewest
  {
    hide Deliver, WriteQueued, DecideOnWorker, MakeDuty, MarkWritten;
    match step
    case WorkerPerforms(op, env) => PerformKeepsLines(s, op, env);
    case _ =>
  }

  lemma StepFollows(s: State, step: Step, config: Config)
    requires Follows(s, config) && OneUpdater(s) && Can(s, step) && KeepsPolicy(step, config)
    ensures Follows(Next(s, step), config)
  {
    hide CallerNext, ControlNext, WorkerNext, CallerCan, ControlCan, WorkerCan, PlaceFollows, KeepsPolicy, HistoryFollows;
    var s' := Next(s, step);
    if CallerCan(s, step) {
      CallerMoves(s, step);
      CallerFollows(s, step, config);
    } else if ControlCan(s, step) {
      ControlMoves(s, step) by { assert OneUpdater(s); }
      ControlFollows(s, step, config);
      assert HistoryFollows(s', config) by { SameHistoryFollows(s, s', config); }
    } else {
      WorkerMoves(s, step);
      WorkerFollows(s, step, config);
      assert forall t :: PlaceOf(s', t) == PlaceOf(s, t);
    }
  }

  lemma SameHistoryFollows(s: State, s': State, config: Config)
    requires HistoryFollows(s, config) && s'.drops == s.drops && s'.queued == s.queued
    ensures HistoryFollows(s', config)
  {
  }

  lemma {:induction false} RunFollows(s: State, steps: seq<Step>, config: Config)
    requires Follows(s, config) && OneUpdater(s) && IsRun(s, steps)
    requires forall i :: 0 <= i < |steps| ==> KeepsPolicy(steps[i], config)
    ensures Follows(After(s, steps), config)
    decreases |steps|
  {
    hide Next, Can, Follows, OneUpdater, KeepsPolicy;
    if steps != [] {
      StepFollows(s, steps[0], config);
      OneUpdaterKept(s, steps[0]);
      RunFollows(Next(s, steps[0]), steps[1..], config);
    }
  }

  /** In every run with one WaitAtLevel and one OverflowPolicy: an entry is dropped only with DropNewest, and only below
      WaitAtLevel; a caller waits for room only if its entry can't be dropped, and for its entry only from that level on. */
  lemma OnlyDroppableAreDropped(config: Config, steps: seq<Step>)
    requires IsRun(Initial(config), steps) && forall i :: 0 <= i < |steps| ==> KeepsPolicy(steps[i], config)
    ensures var s := After(Initial(config), steps);
      && (forall d :: d in s.drops ==> config.dropNewest && d.record.level < config.waitAtLevel)
      && (forall e :: e in s.queued && e.record.thread != WORKER ==> e.mustFlush == (e.record.level >= config.waitAtLevel))
      && (forall t :: PlaceOf(s, t).AwaitsRoom? ==>
            !config.dropNewest || PlaceOf(s, t).draft.record.level >= config.waitAtLevel)
      && (forall t :: PlaceOf(s, t).AwaitsEntry? ==> PlaceOf(s, t).entry.record.level >= config.waitAtLevel)
  {
    hide Next, Can;
    RunFollows(Initial(config), steps, config);
    var s := After(Initial(config), steps);
    assert forall t :: PlaceFollows(PlaceOf(s, t), config);
  }
}
