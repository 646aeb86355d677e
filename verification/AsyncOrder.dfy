/** What every interleaving keeps: the queue holds exactly the entries queued but not yet written, and each thread's
    entries reach the output in the order it logged them. */
module AsyncOrder {
  import opened AsyncQueue
  import opened AsyncOutput
  import opened AsyncRun

  // ---- Shapes of what one section appends to the output -------------------

  lemma DeliverShape(o: Output, config: Config, env: Env, what: What, level: nat, endsLine: bool, inBatch: bool)
    ensures var r := Deliver(o, config, env, what, level, endsLine, inBatch);
            && |r.lines| == |o.lines| + 1
            && r.lines[..|o.lines|] == o.lines
            && r.lines[|o.lines|].what == what
  {
    hide Prepare, FlushesEachEntry;
    PrepareKeepsLines(o, config, env, what);
  }

  lemma PrepareKeepsLines(o: Output, config: Config, env: Env, what: What)
    ensures Prepare(o, config, env, what).lines == o.lines
  {
  }

  lemma {:induction false} WriteBatchShape(o: Output, config: Config, envs: seq<Env>, batch: seq<Entry>)
    requires |envs| == |batch|
    ensures var r := WriteBatch(o, config, envs, batch);
            && |r.lines| == |o.lines| + |batch|
            && r.lines[..|o.lines|] == o.lines
            && forall i :: |o.lines| <= i < |r.lines| ==> r.lines[i].what == Queued(batch[i - |o.lines|])
  {
    hide Deliver;
    if batch != [] {
      var n := |batch| - 1;
      WriteBatchShape(o, config, envs[..n], batch[..n]);
      var w := WriteBatch(o, config, envs[..n], batch[..n]);
      DeliverShape(w, config, envs[n], Queued(batch[n]), batch[n].record.level, batch[n].record.endsLine, true);
      var r := WriteBatch(o, config, envs, batch);
      assert r.lines[..|w.lines|] == w.lines;
      assert r.lines[..|o.lines|] == w.lines[..|o.lines|];
      assert forall i :: 0 <= i < |w.lines| ==> r.lines[i] == w.lines[i];
    }
  }

  /** What WriteQueued() appends: the batch, then the line that reports the drops. */
  lemma WriteQueuedShape(o: Output, config: Config, envs: seq<Env>, dropEnv: Env, batch: seq<Entry>, count: nat, after: nat)
    requires |envs| == |batch|
    ensures var r := WriteQueued(o, config, envs, dropEnv, batch, count, after);
            && |r.lines| == |o.lines| + |batch| + (if count > 0 then 1 else 0)
            && r.lines[..|o.lines|] == o.lines
            && forall i :: |o.lines| <= i < |r.lines| ==>
                 r.lines[i].what == if i < |o.lines| + |batch| then Queued(batch[i - |o.lines|]) else DropLine(count, after)
  {
    hide Deliver, WriteBatch;
    WriteBatchShape(o, config, envs, batch);
    var w := WriteBatch(o, config, envs, batch);
    if count > 0 {
      DeliverShape(w, config, dropEnv, DropLine(count, after), WARN, true, true);
      var r := WriteDropLine(w, config, dropEnv, count, after);
      assert r.lines[..|w.lines|] == w.lines;
      assert r.lines[..|o.lines|] == w.lines[..|o.lines|];
      assert forall i :: 0 <= i < |w.lines| ==> r.lines[i] == w.lines[i];
    }
  }

  // ---- Counters ------------------------------------------------------------

  /** The queued entries that reached the output's lock, accepted or refused, in the order they did. */
  function WrittenEntries(lines: seq<Line>): seq<Entry> {
    if lines == [] then []
    else
      var n := |lines| - 1;
      WrittenEntries(lines[..n]) + if lines[n].what.Queued? then [lines[n].what.entry] else []
  }

  lemma WrittenSnoc(before: seq<Line>, after: seq<Line>)
    requires |after| == |before| + 1 && after[..|before|] == before
    ensures WrittenEntries(after)
         == WrittenEntries(before) + if after[|before|].what.Queued? then [after[|before|].what.entry] else []
  {
  }

  lemma {:induction false} WrittenAppend(before: seq<Line>, after: seq<Line>, batch: seq<Entry>)
    requires |after| == |before| + |batch| && after[..|before|] == before
    requires forall i :: |before| <= i < |after| ==> after[i].what == Queued(batch[i - |before|])
    ensures WrittenEntries(after) == WrittenEntries(before) + batch
  {
    if batch != [] {
      var n := |batch| - 1;
      var shorter := after[..|before| + n];
      assert shorter[..|before|] == before;
      WrittenAppend(before, shorter, batch[..n]);
      WrittenSnoc(shorter, after);
      assert batch == batch[..n] + [batch[n]];
    } else {
      assert after == before;
    }
  }

  lemma WrittenAfterWrite(o: Output, config: Config, envs: seq<Env>, dropEnv: Env, batch: seq<Entry>, count: nat, after: nat)
    requires |envs| == |batch|
    ensures WrittenEntries(WriteQueued(o, config, envs, dropEnv, batch, count, after).lines) == WrittenEntries(o.lines) + batch
  {
    var r := WriteQueued(o, config, envs, dropEnv, batch, count, after);
    WriteQueuedShape(o, config, envs, dropEnv, batch, count, after);
    var entries := r.lines[..|o.lines| + |batch|];
    assert entries[..|o.lines|] == o.lines;
    WrittenAppend(o.lines, entries, batch);
    if count > 0 {
      WrittenSnoc(entries, r.lines);
    } else {
      assert entries == r.lines;
    }
  }

  /** How many queued entries the output has seen: those marked written, and a batch just written. */
  function Done(s: State): nat {
    s.queue.lastWritten + if s.worker.Running? && s.worker.at.Wrote? then |s.worker.at.batch| else 0
  }

  ghost predicate FlagFollows(q: Queue) {
    q.isAsync == (q.isAsyncActive || q.lastWritten < q.lastQueued)
  }

  /** The batch in flight and then the queue are exactly the entries numbered lastWritten + 1 to lastQueued. */
  ghost predicate QueueOk(q: Queue, queued: seq<Entry>, inFlight: seq<Entry>) {
    && q.lastWritten <= q.lastQueued == |queued|
    && (forall i :: 0 <= i < |queued| ==> queued[i].sequence == i + 1)
    && inFlight + q.entries == queued[q.lastWritten..]
    && FlagFollows(q)
  }

  ghost predicate Counters(s: State) {
    && QueueOk(s.queue, s.queued, InFlight(s.worker))
    && WrittenEntries(s.output.lines) == s.queued[..Done(s)]
    && (s.worker.Running? && s.worker.at.Taken? ==> s.worker.at.upTo == s.queue.lastWritten + |s.worker.at.batch|)
  }

  lemma PushKeepsCounters(s: State, s': State, draft: Draft)
    requires Counters(s)
    requires var (entry, queue) := Push(s.queue, draft);
             s'.queue == queue && s'.queued == s.queued + [entry]
    requires s.queue.isAsyncActive && s'.worker == s.worker && s'.output == s.output
    ensures Counters(s')
  {
    var entry := Push(s.queue, draft).0;
    assert s'.queued[s.queue.lastWritten..] == s.queued[s.queue.lastWritten..] + [entry];
    assert InFlight(s.worker) + s'.queue.entries == (InFlight(s.worker) + s.queue.entries) + [entry];
    assert s'.queued[..Done(s)] == s.queued[..Done(s)];
  }

  lemma UnqueuedKeepsCounters(s: State, s': State)
    requires Counters(s)
    requires s' == s.(queue := s.queue.(dropped := s'.queue.dropped), drops := s'.drops, places := s'.places, calls := s'.calls)
    ensures Counters(s')
  {
  }

  /** What a section of QueueRecord() does to the queue. */
  ghost predicate IsAdmission(q: Queue, draft: Draft, admission: Admission, q': Queue) {
    match admission
    case Accepted(entry) => q.isAsyncActive && |q.entries| < draft.capacity && (entry, q') == Push(q, draft)
    case Dropped => q.isAsyncActive && |q.entries| >= draft.capacity && draft.mayDrop && q' == q.(dropped := q.dropped + 1)
    case NoRoom => q.isAsyncActive && |q.entries| >= draft.capacity && !draft.mayDrop && q' == q
    case Switched => !q.isAsyncActive && q.lastWritten >= q.lastQueued && q' == q
    case Drains => !q.isAsyncActive && q.lastWritten < q.lastQueued && q' == q
  }

  lemma Admits(q: Queue, draft: Draft)
    ensures IsAdmission(q, draft, Enter(q, draft).0, Enter(q, draft).1)
    ensures HasRoom(q, draft) ==> IsAdmission(q, draft, Admit(q, draft).0, Admit(q, draft).1)
  {
  }

  lemma AdmittedKeepsCounters(s: State, t: nat, draft: Draft, admission: Admission, queue: Queue)
    requires Counters(s) && IsAdmission(s.queue, draft, admission, queue)
    ensures Counters(Admitted(s, t, draft, admission, queue))
  {
    hide Counters;
    var s' := Admitted(s, t, draft, admission, queue);
    if admission.Accepted? {
      PushKeepsCounters(s, s', draft);
    } else {
      UnqueuedKeepsCounters(s, s');
    }
  }

  // A step of a caller is a section of QueueRecord(), the direct write, or leaves queue and output alone

  predicate IsSection(step: Step) {
    step.EnterQueue? || step.FindRoom?
  }

  function DraftOf(p: Place): Draft
    requires p.Enters? || p.AwaitsRoom?
  {
    p.draft
  }

  function SectionOf(q: Queue, draft: Draft, step: Step): (Admission, Queue) {
    if step.EnterQueue? then Enter(q, draft) else Admit(q, draft)
  }

  lemma SectionAdmits(s: State, step: Step)
    requires CallerCan(s, step) && IsSection(step)
    ensures PlaceOf(s, step.t).Enters? || PlaceOf(s, step.t).AwaitsRoom?
    ensures var draft := DraftOf(PlaceOf(s, step.t));
      var (admission, queue) := SectionOf(s.queue, draft, step);
      IsAdmission(s.queue, draft, admission, queue) && CallerNext(s, step) == Admitted(s, step.t, draft, admission, queue)
  {
    hide Deliver, MakeDraft, Enter, Admit, Admitted, IsAdmission;
    Admits(s.queue, DraftOf(PlaceOf(s, step.t)));
  }

  lemma DirectDelivers(s: State, step: Step)
    requires CallerCan(s, step) && step.WriteDirect?
    ensures PlaceOf(s, step.t).WritesDirectly?
    ensures var p, s' := PlaceOf(s, step.t), CallerNext(s, step);
      && s' == Move(s.(output := s'.output), step.t, Idle)
      && s'.output == Deliver(s.output, s.config, step.env, Direct(p.record, p.dropsBefore), p.record.level, p.record.endsLine, false)
      && |s'.output.lines| == |s.output.lines| + 1 && s'.output.lines[..|s.output.lines|] == s.output.lines
      && s'.output.lines[|s.output.lines|].what == Direct(p.record, p.dropsBefore)
  {
    hide Deliver;
    var record := PlaceOf(s, step.t).record;
    DeliverShape(s.output, s.config, step.env, Direct(record, PlaceOf(s, step.t).dropsBefore), record.level, record.endsLine, false);
  }

  lemma OthersAreQuiet(s: State, step: Step)
    requires CallerCan(s, step) && !IsSection(step) && !step.WriteDirect?
    ensures var s' := CallerNext(s, step); s' == s.(places := s'.places, calls := s'.calls)
  {
    hide Deliver, MakeDraft, Enter, Admit;
  }

  lemma CallerKeepsCounters(s: State, step: Step)
    requires Counters(s) && CallerCan(s, step)
    ensures Counters(CallerNext(s, step))
  {
    hide Counters, CallerNext, CallerCan, IsAdmission, Admitted;
    if IsSection(step) {
      SectionAdmits(s, step);
      var draft := DraftOf(PlaceOf(s, step.t));
      var (admission, queue) := SectionOf(s.queue, draft, step);
      AdmittedKeepsCounters(s, step.t, draft, admission, queue);
    } else if step.WriteDirect? {
      DirectDelivers(s, step);
      DirectKeepsCounters(s, CallerNext(s, step));
    } else {
      OthersAreQuiet(s, step);
      UnqueuedKeepsCounters(s, CallerNext(s, step));
    }
  }

  lemma DirectKeepsCounters(s: State, s': State)
    requires Counters(s) && s'.queue == s.queue && s'.queued == s.queued && s'.worker == s.worker
    requires var n := |s.output.lines|;
             |s'.output.lines| == n + 1 && s'.output.lines[..n] == s.output.lines && s'.output.lines[n].what.Direct?
    ensures Counters(s')
  {
    WrittenSnoc(s.output.lines, s'.output.lines);
  }

  ghost predicate SameEntries(q: Queue, q': Queue) {
    q'.entries == q.entries && q'.lastQueued == q.lastQueued && q'.lastWritten == q.lastWritten && q'.dropped == q.dropped
  }

  lemma DecidingKeepsEntries(q: Queue, isJoinable: bool, duty: Duty)
    requires FlagFollows(q) && q.lastWritten <= q.lastQueued
    ensures SameEntries(q, Decide(q, isJoinable, duty).1) && FlagFollows(Decide(q, isJoinable, duty).1)
    ensures SameEntries(q, DecideOnWorker(q, duty)) && FlagFollows(DecideOnWorker(q, duty))
    ensures SameEntries(q, SetActive(q, duty.isAsync)) && FlagFollows(SetActive(q, duty.isAsync))
  {
  }

  lemma PerformKeepsLines(s: State, op: Op, env: Env)
    ensures var r := PerformOp(s, op, env);
            r == s.(config := r.config, output := r.output) && r.output.lines == s.output.lines
  {
  }

  ghost predicate SameProgress(s: State, s': State) {
    && SameEntries(s.queue, s'.queue) && s'.queued == s.queued && s'.output.lines == s.output.lines
    && InFlight(s'.worker) == InFlight(s.worker) && Done(s') == Done(s)
    && (s'.worker.Running? && s'.worker.at.Taken? ==> s'.worker == s.worker)
  }

  lemma ProgressKeepsCounters(s: State, s': State)
    requires Counters(s) && SameProgress(s, s') && FlagFollows(s'.queue)
    ensures Counters(s')
  {
  }

  lemma ControlKeepsProgress(s: State, step: Step)
    requires ControlCan(s, step) && FlagFollows(s.queue) && s.queue.lastWritten <= s.queue.lastQueued
    requires step.LaunchWorker? ==> s.worker.NoThread?
    ensures SameProgress(s, ControlNext(s, step)) && FlagFollows(ControlNext(s, step).queue)
  {
    hide Decide, SetActive, MakeDuty, PerformOp;
    match step
    case Perform(t, env) => PerformKeepsLines(s, PlaceOf(s, t).op, env);
    case DecideWorker(t) =>
      DecidingKeepsEntries(s.queue, !s.worker.NoThread?, MakeDuty(PlaceOf(s, t).mustStop, s.output.isInitialized, s.config));
    case ActivateAsync(t) => DecidingKeepsEntries(s.queue, false, Duty(0, PlaceOf(s, t).isAsync));
    case _ =>
  }

  lemma ControlKeepsCounters(s: State, step: Step)
    requires Counters(s) && ControlCan(s, step)
    requires step.LaunchWorker? ==> s.worker.NoThread?
    ensures Counters(ControlNext(s, step))
  {
    ControlKeepsProgress(s, step);
    ProgressKeepsCounters(s, ControlNext(s, step));
  }

  lemma TakingKeepsCounters(s: State)
    requires Counters(s) && s.worker.Running? && s.worker.at.Waiting?
    ensures Counters(TakeBatch(s))
  {
    assert |InFlight(s.worker) + s.queue.entries| == s.queue.lastQueued - s.queue.lastWritten;
  }

  lemma WritingKeepsCounters(s: State, envs: seq<Env>, dropEnv: Env)
    requires Counters(s) && s.worker.Running? && s.worker.at.Taken? && |envs| == |s.worker.at.batch|
    ensures Counters(WriteTaken(s, envs, dropEnv))
  {
    var s' := WriteTaken(s, envs, dropEnv);
    var at := s.worker.at;
    WrittenAfterWrite(s.output, s.config, envs, dropEnv, at.batch, at.count, at.upTo);
    assert s.queued[s.queue.lastWritten..][..|at.batch|] == at.batch;
    assert s.queued[..Done(s')] == s.queued[..Done(s)] + at.batch;
  }

  lemma FrontLeaves<T>(all: seq<T>, start: nat, front: seq<T>, back: seq<T>)
    requires start <= |all| && front + back == all[start..]
    ensures start + |front| <= |all| && back == all[start + |front|..]
    ensures front != [] ==> front[|front| - 1] == all[start + |front| - 1]
  {
    assert back == (front + back)[|front|..];
    assert front != [] ==> front[|front| - 1] == (front + back)[|front| - 1];
  }

  lemma QueueOkMarked(q: Queue, queued: seq<Entry>, batch: seq<Entry>)
    requires QueueOk(q, queued, batch)
    ensures QueueOk(MarkWritten(q, batch), queued, [])
    ensures MarkWritten(q, batch).lastWritten == q.lastWritten + |batch|
    ensures forall entry :: entry in batch ==> entry.sequence <= q.lastWritten + |batch|
  {
    FrontLeaves(queued, q.lastWritten, batch, q.entries);
    assert [] + q.entries == q.entries;
    forall i | 0 <= i < |batch| ensures batch[i].sequence == q.lastWritten + i + 1 {
      assert batch[i] == (batch + q.entries)[i];
    }
  }

  lemma MarkingKeepsCounters(s: State)
    requires Counters(s) && s.worker.Running? && s.worker.at.Wrote?
    ensures Counters(MarkBatch(s))
    ensures MarkBatch(s).queue.lastWritten == s.queue.lastWritten + |s.worker.at.batch|
  {
    hide QueueOk, MarkWritten, WrittenEntries;
    QueueOkMarked(s.queue, s.queued, s.worker.at.batch);
  }

  lemma WorkerKeepsCounters(s: State, step: Step)
    requires Counters(s) && WorkerCan(s, step)
    ensures Counters(WorkerNext(s, step))
  {
    hide Deliver, WriteQueued, WrittenEntries, DecideOnWorker, MakeDuty, PerformOp, MarkWritten;
    match step
    case WorkerTakes(_) => TakingKeepsCounters(s);
    case WorkerWrites(envs, dropEnv) => WritingKeepsCounters(s, envs, dropEnv);
    case WorkerMarks => MarkingKeepsCounters(s);
    case WorkerQueues(level, endsLine, mustFlush) =>
      var record := Record(WORKER, CallsOf(s, WORKER), level, endsLine);
      PushKeepsCounters(s, WorkerNext(s, step), Draft(record, mustFlush, false, 1));
    case WorkerLogs(level, endsLine, env) =>
      var record := Record(WORKER, CallsOf(s, WORKER), level, endsLine);
      DeliverShape(s.output, s.config, env, Direct(record, 0), level, endsLine, false);
      WrittenSnoc(s.output.lines, WorkerNext(s, step).output.lines);
    case WorkerPerforms(op, env) => PerformKeepsLines(s, op, env);
    case WorkerUpdates(mustStop) =>
      DecidingKeepsEntries(s.queue, false, MakeDuty(mustStop, s.output.isInitialized, s.config));
    case _ =>
  }

  // ---- At most one worker ---------------------------------------------------

  predicate HoldsUpdate(p: Place) {
    p.Decides? || p.Joins? || p.Launches? || p.Activates?
  }

  /** The worker lock is held by the one thread in the middle of UpdateWorker(), which starts a worker only after the
      one before was joined. */
  ghost predicate OneUpdater(s: State) {
    && PlaceOf(s, WORKER).Idle?
    && (forall t :: HoldsUpdate(PlaceOf(s, t)) ==> s.updater == HeldBy(t))
    && (forall t :: PlaceOf(s, t).Launches? ==> s.worker.NoThread?)
    && (forall t :: PlaceOf(s, t).Joins? || PlaceOf(s, t).Activates? ==> !s.worker.NoThread?)
  }

  lemma OthersKeepPlaces(s: State, s': State, t: nat)
    requires t in s'.places && s'.places == s.places[t := s'.places[t]]
    ensures forall u :: u != t ==> PlaceOf(s', u) == PlaceOf(s, u)
  {
  }

  lemma CallerPlaces(s: State, step: Step)
    requires CallerCan(s, step)
    ensures var s' := CallerNext(s, step);
            && step.t in s'.places && s'.places == s.places[step.t := s'.places[step.t]]
            && s'.worker == s.worker && s'.updater == s.updater
  {
    hide Enter, Admit, Deliver, MakeDraft;
  }

  lemma CallerHoldsNothing(s: State, step: Step)
    requires CallerCan(s, step)
    ensures HasThread(step) && (PlaceOf(s, step.t).Idle? ==> step.t != WORKER)
    ensures !HoldsUpdate(PlaceOf(CallerNext(s, step), step.t)) && !HoldsUpdate(PlaceOf(s, step.t))
  {
    hide Enter, Admit, Deliver, MakeDraft;
  }

  /** The step of a thread that isn't the worker. */
  predicate HasThread(step: Step) {
    !step.WorkerTakes? && !step.WorkerWrites? && !step.WorkerMarks? && !step.WorkerWakes? && !step.WorkerLoops?
    && !step.WorkerQueues? && !step.WorkerLogs? && !step.WorkerPerforms? && !step.WorkerUpdates?
  }

  lemma CallerMoves(s: State, step: Step)
    requires CallerCan(s, step)
    ensures HasThread(step) && (PlaceOf(s, step.t).Idle? ==> step.t != WORKER)
    ensures var s' := CallerNext(s, step);
            && s'.worker == s.worker && s'.updater == s.updater
            && !HoldsUpdate(PlaceOf(s', step.t)) && !HoldsUpdate(PlaceOf(s, step.t))
            && forall u :: u != step.t ==> PlaceOf(s', u) == PlaceOf(s, u)
  {
    CallerPlaces(s, step);
    CallerHoldsNothing(s, step);
    hide CallerNext, CallerCan;
    OthersKeepPlaces(s, CallerNext(s, step), step.t);
  }

  lemma ControlMoves(s: State, step: Step)
    requires ControlCan(s, step) && (HoldsUpdate(PlaceOf(s, step.t)) ==> s.updater == HeldBy(step.t))
    ensures HasThread(step)
    ensures var s' := ControlNext(s, step);
            && (forall u :: u != step.t ==> PlaceOf(s', u) == PlaceOf(s, u))
            && (s'.updater == s.updater ==>
                 HoldsUpdate(PlaceOf(s', step.t)) == HoldsUpdate(PlaceOf(s, step.t)))
            && (s'.updater != s.updater ==>
                 if HoldsUpdate(PlaceOf(s, step.t)) then s'.updater.Free? && PlaceOf(s', step.t).Idle?
                 else s.updater.Free? && s'.updater == HeldBy(step.t) && PlaceOf(s', step.t).Decides?)
            && (s'.worker != s.worker ==> step.JoinWorker? || step.LaunchWorker?)
            && (PlaceOf(s', step.t).Launches? ==> step.DecideWorker? && s'.worker.NoThread?)
            && (PlaceOf(s', step.t).Joins? ==> step.DecideWorker? && !s'.worker.NoThread?)
            && (PlaceOf(s', step.t).Activates? ==> step.LaunchWorker? && !s'.worker.NoThread?)
  {
    hide SetActive, MakeDuty, PerformOp, CallerNext;
    match step
    case Perform(t, env) => PerformKeepsLines(s, PlaceOf(s, t).op, env);
    case _ =>
  }

  /** Only the thread in the middle of UpdateWorker() joins or starts the worker. */
  lemma OnlyUpdaterChangesWorker(s: State, step: Step)
    requires ControlCan(s, step)
    ensures HasThread(step) && (PlaceOf(s, step.t).Idle? ==> step.t != WORKER)
    ensures step.JoinWorker? || step.LaunchWorker? ==>
              HoldsUpdate(PlaceOf(s, step.t)) && !PlaceOf(ControlNext(s, step), step.t).Launches?
  {
    hide CallerNext, WorkerNext;
  }

  lemma WorkerMoves(s: State, step: Step)
    requires WorkerCan(s, step)
    ensures var s' := WorkerNext(s, step);
            s'.places == s.places && s'.updater == s.updater && !s.worker.NoThread? && !s'.worker.NoThread?
  {
  }

  lemma OneUpdaterKept(s: State, step: Step)
    requires OneUpdater(s) && Can(s, step)
    ensures OneUpdater(Next(s, step))
  {
    hide CallerNext, WorkerNext, ControlNext, CallerCan, ControlCan, WorkerCan;
    var s' := Next(s, step);
    if CallerCan(s, step) {
      CallerMoves(s, step);
    } else if ControlCan(s, step) {
      ControlMoves(s, step);
      OnlyUpdaterChangesWorker(s, step);
    } else {
      WorkerMoves(s, step);
      assert forall t :: PlaceOf(s', t) == PlaceOf(s, t);
    }
  }

  lemma CountersKept(s: State, step: Step)
    requires Counters(s) && OneUpdater(s) && Can(s, step)
    ensures Counters(Next(s, step))
  {
    if CallerCan(s, step) {
      CallerKeepsCounters(s, step);
    } else if ControlCan(s, step) {
      ControlKeepsCounters(s, step);
    } else {
      WorkerKeepsCounters(s, step);
    }
  }
}
