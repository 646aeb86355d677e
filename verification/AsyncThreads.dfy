/** Each thread's entries reach the output in the order it logged them, whatever the interleaving. */
module AsyncThreads {
  import opened AsyncQueue
  import opened AsyncOutput
  import opened AsyncRun
  import opened AsyncOrder

  datatype Carried = Nothing | Carries(record: Record)

  /** The record a thread holds that is neither queued, nor dropped, nor written yet. */
  function CarriedBy(p: Place): Carried {
    match p
    case ReadsFlag(record) => Carries(record)
    case Formats(record) => Carries(record)
    case Enters(draft) => Carries(draft.record)
    case AwaitsRoom(draft) => Carries(draft.record)
    case AwaitsQueue(record) => Carries(record)
    case WritesDirectly(record, _) => Carries(record)
    case _ => Nothing
  }

  predicate IsEntryLine(line: Line) {
    !line.what.DropLine?
  }

  function RecordOf(line: Line): Record
    requires IsEntryLine(line)
  {
    if line.what.Queued? then line.what.entry.record else line.what.record
  }

  predicate Precedes(a: Record, b: Record) {
    a.thread == b.thread && a.thread != WORKER ==> a.serial < b.serial
  }

  /** Every record of thread t that left its call so far has a smaller serial number. */
  function Horizon(s: State, t: nat): nat {
    var c := CarriedBy(PlaceOf(s, t));
    if c.Carries? then c.record.serial else CallsOf(s, t)
  }

  ghost predicate LinesInOrder(lines: seq<Line>) {
    forall i, j :: 0 <= i < j < |lines| && IsEntryLine(lines[i]) && IsEntryLine(lines[j])
      ==> Precedes(RecordOf(lines[i]), RecordOf(lines[j]))
  }

  ghost predicate QueuedInOrder(queued: seq<Entry>) {
    forall i, j :: 0 <= i < j < |queued| ==> Precedes(queued[i].record, queued[j].record)
  }

  /** What is written precedes the entries queued after the first 'done'. */
  ghost predicate LinesBefore(lines: seq<Line>, queued: seq<Entry>, done: nat) {
    forall i, j :: 0 <= i < |lines| && IsEntryLine(lines[i]) && done <= j < |queued|
      ==> Precedes(RecordOf(lines[i]), queued[j].record)
  }

  ghost predicate Below(s: State, record: Record) {
    record.thread != WORKER ==> record.serial < Horizon(s, record.thread)
  }

  ghost predicate AllBelow(s: State) {
    && (forall i :: 0 <= i < |s.output.lines| && IsEntryLine(s.output.lines[i]) ==> Below(s, RecordOf(s.output.lines[i])))
    && (forall i :: 0 <= i < |s.queued| ==> Below(s, s.queued[i].record))
  }

  ghost predicate OwnRecords(s: State) {
    forall t :: CarriedBy(PlaceOf(s, t)).Carries? ==>
      var record := CarriedBy(PlaceOf(s, t)).record;
      t != WORKER && record.thread == t && record.serial + 1 == CallsOf(s, t)
  }

  /** A thread about to write directly has nothing left in the queue. */
  ghost predicate DirectIsLast(s: State) {
    forall t, i :: PlaceOf(s, t).WritesDirectly? && s.queue.lastWritten <= i < |s.queued| ==> s.queued[i].record.thread != t
  }

  ghost predicate Ordered(s: State) {
    && Counters(s)
    && OneUpdater(s)
    && LinesInOrder(s.output.lines)
    && QueuedInOrder(s.queued)
    && LinesBefore(s.output.lines, s.queued, Done(s))
    && AllBelow(s)
    && OwnRecords(s)
    && DirectIsLast(s)
  }

  /** Nobody's records moved, except that thread t may have gone on to a later record. */
  ghost predicate HorizonGrows(s: State, s': State) {
    forall t :: Horizon(s, t) <= Horizon(s', t)
  }

  lemma BelowGrows(s: State, s': State)
    requires AllBelow(s) && HorizonGrows(s, s') && s'.output.lines == s.output.lines && s'.queued == s.queued
    ensures AllBelow(s')
  {
  }

  // ---- One lemma per kind of step -------------------------------------------

  ghost predicate SameHistory(s: State, s': State) {
    s'.output.lines == s.output.lines && s'.queued == s.queued && Done(s') == Done(s)
    && s'.queue.lastWritten >= s.queue.lastWritten
  }

  lemma QuietStepKeepsOrder(s: State, s': State)
    requires Ordered(s) && SameHistory(s, s') && HorizonGrows(s, s') && OwnRecords(s') && Counters(s') && OneUpdater(s')
    requires forall t :: PlaceOf(s', t).WritesDirectly? ==>
               PlaceOf(s, t).WritesDirectly? || s.queue.lastWritten >= s.queue.lastQueued
    ensures Ordered(s')
  {
    BelowGrows(s, s');
  }

  lemma QueuedAfterAll(s: State, queued: seq<Entry>, entry: Entry)
    requires Ordered(s) && queued == s.queued + [entry]
    requires entry.record.thread == WORKER || entry.record.serial == Horizon(s, entry.record.thread)
    ensures QueuedInOrder(queued) && LinesBefore(s.output.lines, queued, Done(s))
  {
    forall i, j | 0 <= i < j < |queued| ensures Precedes(queued[i].record, queued[j].record) {
      if j == |s.queued| { assert Below(s, s.queued[i].record); }
    }
    forall i, j | 0 <= i < |s.output.lines| && IsEntryLine(s.output.lines[i]) && Done(s) <= j < |queued|
      ensures Precedes(RecordOf(s.output.lines[i]), queued[j].record)
    {
      if j == |s.queued| { assert Below(s, RecordOf(s.output.lines[i])); }
    }
  }

  lemma QueuingKeepsOrder(s: State, s': State, entry: Entry)
    requires Ordered(s) && Counters(s') && OneUpdater(s') && HorizonGrows(s, s') && OwnRecords(s')
    requires s'.output == s.output && s'.queued == s.queued + [entry] && Done(s') == Done(s)
    requires s'.queue.lastWritten == s.queue.lastWritten
    requires var t := entry.record.thread;
             t == WORKER || (entry.record.serial == Horizon(s, t) < Horizon(s', t) && !PlaceOf(s', t).WritesDirectly?)
    requires forall t :: PlaceOf(s', t).WritesDirectly? ==> PlaceOf(s, t).WritesDirectly? && t != WORKER
    ensures Ordered(s')
  {
    hide LinesInOrder, QueuedInOrder, LinesBefore, Counters;
    assert AllBelow(s);
    QueuedAfterAll(s, s'.queued, entry);
  }

  lemma DirectKeepsOrder(s: State, s': State, t: nat, line: Line)
    requires Ordered(s) && Counters(s') && OneUpdater(s') && HorizonGrows(s, s') && OwnRecords(s')
    requires s'.output.lines == s.output.lines + [line] && s'.queued == s.queued && Done(s') == Done(s) && s'.queue == s.queue
    requires line.what.Direct? && line.what.record.thread == t
    requires t == WORKER ||
      (PlaceOf(s, t).WritesDirectly? && line.what.record.serial == Horizon(s, t) < Horizon(s', t))
    requires forall u :: PlaceOf(s', u).WritesDirectly? ==> PlaceOf(s, u).WritesDirectly?
    ensures Ordered(s')
  {
    assert AllBelow(s);
    assert LinesInOrder(s'.output.lines) by {
      forall i, j | 0 <= i < j < |s'.output.lines| && IsEntryLine(s'.output.lines[i]) && IsEntryLine(s'.output.lines[j])
        ensures Precedes(RecordOf(s'.output.lines[i]), RecordOf(s'.output.lines[j]))
      {
        if j == |s.output.lines| { assert Below(s, RecordOf(s.output.lines[i])); }
      }
    }
  }

  lemma BatchInOrder(lines: seq<Line>, lines': seq<Line>, queued: seq<Entry>, done: nat, count: nat)
    requires LinesInOrder(lines) && QueuedInOrder(queued) && LinesBefore(lines, queued, done) && done + count <= |queued|
    requires |lines| <= |lines'| && lines'[..|lines|] == lines
    requires forall i :: |lines| <= i < |lines'| && IsEntryLine(lines'[i]) ==>
               i < |lines| + count && RecordOf(lines'[i]) == queued[done + i - |lines|].record
    ensures LinesInOrder(lines') && LinesBefore(lines', queued, done + count)
  {
    assert forall i :: 0 <= i < |lines| ==> lines'[i] == lines[i];
  }

  lemma BatchKeepsOrder(s: State, s': State, count: nat)
    requires Ordered(s) && Counters(s') && OneUpdater(s')
    requires s'.places == s.places && s'.calls == s.calls && s'.queued == s.queued && s'.queue == s.queue
    requires Done(s') == Done(s) + count <= |s.queued|
    requires var n := |s.output.lines|;
             && n <= |s'.output.lines| && s'.output.lines[..n] == s.output.lines
             && forall i :: n <= i < |s'.output.lines| && IsEntryLine(s'.output.lines[i]) ==>
                  i < n + count && RecordOf(s'.output.lines[i]) == s.queued[Done(s) + i - n].record
    ensures Ordered(s')
  {
    BatchInOrder(s.output.lines, s'.output.lines, s.queued, Done(s), count);
    HorizonSame(s, s');
    assert AllBelow(s') by {
      assert AllBelow(s);
      assert forall i :: 0 <= i < |s.output.lines| ==> s'.output.lines[i] == s.output.lines[i];
    }
  }

  lemma WrittenKeepsOrder(s: State, s': State)
    requires Ordered(s) && Counters(s') && s.worker.Running? && s.worker.at.Taken?
    requires s' == s.(output := s'.output, worker := s.worker.(at := Wrote(s.worker.at.batch)))
    requires var n, batch := |s.output.lines|, s.worker.at.batch;
             && n <= |s'.output.lines| && s'.output.lines[..n] == s.output.lines
             && forall i :: n <= i < |s'.output.lines| && IsEntryLine(s'.output.lines[i]) ==>
                  i < n + |batch| && s'.output.lines[i].what == Queued(batch[i - n])
    ensures Ordered(s')
  {
    var batch := s.worker.at.batch;
    assert s.queued[s.queue.lastWritten..] == batch + s.queue.entries;
    assert forall i :: 0 <= i < |batch| ==> batch[i] == s.queued[Done(s) + i];
    assert forall t :: PlaceOf(s', t) == PlaceOf(s, t);
    BatchKeepsOrder(s, s', |batch|);
  }

  lemma WritingKeepsOrder(s: State, s': State, envs: seq<Env>, dropEnv: Env)
    requires Ordered(s) && s.worker.Running? && s.worker.at.Taken? && |envs| == |s.worker.at.batch|
    requires s' == WriteTaken(s, envs, dropEnv)
    ensures Ordered(s')
  {
    var at := s.worker.at;
    WritingKeepsCounters(s, envs, dropEnv);
    WriteQueuedShape(s.output, s.config, envs, dropEnv, at.batch, at.count, at.upTo);
    WrittenKeepsOrder(s, s');
  }

  lemma HorizonSame(s: State, s': State)
    requires s'.places == s.places && s'.calls == s.calls
    ensures forall t :: PlaceOf(s', t) == PlaceOf(s, t) && Horizon(s', t) == Horizon(s, t)
    ensures OwnRecords(s) ==> OwnRecords(s')
  {
  }

  // ---- Every step -------------------------------------------------------------

  /** Thread t went on from a place where it carried a record to one where it may carry the same one. */
  lemma MoveGrowsHorizon(s: State, s': State, t: nat)
    requires OwnRecords(s) && s'.calls == s.calls && t != WORKER
    requires forall u :: u != t ==> PlaceOf(s', u) == PlaceOf(s, u)
    requires CarriedBy(PlaceOf(s', t)) in {Nothing, CarriedBy(PlaceOf(s, t))}
    ensures HorizonGrows(s, s') && OwnRecords(s')
    ensures CarriedBy(PlaceOf(s, t)).Carries? && CarriedBy(PlaceOf(s', t)).Nothing? ==> Horizon(s, t) < Horizon(s', t)
  {
  }

  lemma AdmittedKeepsOrder(s: State, t: nat, draft: Draft, admission: Admission, queue: Queue)
    requires Ordered(s) && t != WORKER && Counters(Admitted(s, t, draft, admission, queue))
    requires CarriedBy(PlaceOf(s, t)) == Carries(draft.record) && !PlaceOf(s, t).WritesDirectly?
    requires queue.lastWritten == s.queue.lastWritten
    requires admission.Accepted? ==> admission.entry.record == draft.record
    requires admission.Switched? ==> s.queue.lastWritten >= s.queue.lastQueued
    ensures Ordered(Admitted(s, t, draft, admission, queue))
  {
    hide LinesInOrder, QueuedInOrder, LinesBefore, AllBelow, Counters;
    var s' := Admitted(s, t, draft, admission, queue);
    MoveGrowsHorizon(s, s', t);
    assert OwnRecords(s);
    assert OneUpdater(s');
    if admission.Accepted? {
      QueuingKeepsOrder(s, s', admission.entry);
    } else {
      QuietStepKeepsOrder(s, s');
    }
  }

  lemma CallKeepsOrder(s: State, s': State, t: nat, level: nat, endsLine: bool)
    requires Ordered(s) && Counters(s') && OneUpdater(s')
    requires CallerCan(s, Call(t, level, endsLine)) && s' == CallerNext(s, Call(t, level, endsLine))
    ensures Ordered(s')
  {
    hide LinesInOrder, QueuedInOrder, LinesBefore, AllBelow, Counters;
    assert forall u :: u != t ==> PlaceOf(s', u) == PlaceOf(s, u) && CallsOf(s', u) == CallsOf(s, u);
    assert forall u :: Horizon(s', u) == Horizon(s, u);
    QuietStepKeepsOrder(s, s');
  }

  lemma WriteDirectKeepsOrder(s: State, s': State, t: nat, env: Env)
    requires Ordered(s) && Counters(s') && OneUpdater(s')
    requires CallerCan(s, WriteDirect(t, env)) && s' == CallerNext(s, WriteDirect(t, env))
    ensures Ordered(s')
  {
    hide LinesInOrder, QueuedInOrder, LinesBefore, AllBelow, Counters, CallerNext, CallerCan, Deliver;
    DirectDelivers(s, WriteDirect(t, env));
    MoveGrowsHorizon(s, s', t);
    var n := |s.output.lines|;
    assert s'.output.lines == s.output.lines + [s'.output.lines[n]];
    assert forall u :: PlaceOf(s', u).WritesDirectly? ==> PlaceOf(s, u).WritesDirectly?;
    DirectKeepsOrder(s, s', t, s'.output.lines[n]);
  }

  lemma EnteringKeepsOrder(s: State, s': State, step: Step)
    requires Ordered(s) && CallerCan(s, step) && s' == CallerNext(s, step) && (step.EnterQueue? || step.FindRoom?)
    requires Counters(s') && OneUpdater(s')
    ensures Ordered(s')
  {
    hide LinesInOrder, QueuedInOrder, LinesBefore, AllBelow, Counters;
    var t := step.t;
    var draft := PlaceOf(s, t).draft;
    var (admission, queue) := if step.EnterQueue? then Enter(s.queue, draft) else Admit(s.queue, draft);
    AdmittedKeepsOrder(s, t, draft, admission, queue);
  }

  lemma QuietCallKeepsOrder(s: State, s': State, step: Step)
    requires Ordered(s) && CallerCan(s, step) && s' == CallerNext(s, step)
    requires step.ReadFlag? || step.Format? || step.SeeDrained? || step.SeeWritten?
    requires Counters(s') && OneUpdater(s')
    ensures Ordered(s')
  {
    hide LinesInOrder, QueuedInOrder, LinesBefore, AllBelow;
    MoveGrowsHorizon(s, s', step.t);
    QuietStepKeepsOrder(s, s');
  }

  lemma CallerKeepsOrder(s: State, s': State, step: Step)
    requires Ordered(s) && CallerCan(s, step) && s' == CallerNext(s, step)
    ensures Ordered(s')
  {
    hide LinesInOrder, QueuedInOrder, LinesBefore, AllBelow, Counters;
    CallerKeepsCounters(s, step);
    OneUpdaterKept(s, step);
    var t := step.t;
    match step
    case Call(_, level, endsLine) => CallKeepsOrder(s, s', t, level, endsLine);
    case EnterQueue(_) => EnteringKeepsOrder(s, s', step);
    case FindRoom(_) => EnteringKeepsOrder(s, s', step);
    case WriteDirect(_, env) => WriteDirectKeepsOrder(s, s', t, env);
    case _ => QuietCallKeepsOrder(s, s', step);
  }

  lemma ControlKeepsOrder(s: State, s': State, step: Step)
    requires Ordered(s) && ControlCan(s, step) && s' == ControlNext(s, step)
    ensures Ordered(s')
  {
    hide LinesInOrder, QueuedInOrder, LinesBefore, AllBelow, ControlNext;
    ControlKeepsCounters(s, step);
    OneUpdaterKept(s, step);
    ControlMoves(s, step);
    ControlKeepsProgress(s, step);
    ControlCarriesNothing(s, s', step);
    MoveGrowsHorizon(s, s', step.t);
    QuietStepKeepsOrder(s, s');
  }

  lemma ControlCarriesNothing(s: State, s': State, step: Step)
    requires ControlCan(s, step) && s' == ControlNext(s, step)
    ensures CarriedBy(PlaceOf(s', step.t)).Nothing? && CarriedBy(PlaceOf(s, step.t)).Nothing?
    ensures s'.calls == s.calls && !PlaceOf(s', step.t).WritesDirectly?
  {
    hide Decide, SetActive, MakeDuty, PerformOp;
    match step
    case Perform(t, env) => PerformKeepsLines(s, PlaceOf(s, t).op, env);
    case _ =>
  }

  lemma WorkerDelivers(s: State, s': State, level: nat, endsLine: bool, env: Env)
    requires WorkerCan(s, WorkerLogs(level, endsLine, env)) && s' == WorkerNext(s, WorkerLogs(level, endsLine, env))
    ensures s' == s.(output := s'.output, calls := s.calls[WORKER := CallsOf(s, WORKER) + 1])
    ensures var n := |s.output.lines|;
      && |s'.output.lines| == n + 1 && s'.output.lines == s.output.lines + [s'.output.lines[n]]
      && s'.output.lines[n].what == Direct(Record(WORKER, CallsOf(s, WORKER), level, endsLine), 0)
  {
    hide Deliver;
    var record := Record(WORKER, CallsOf(s, WORKER), level, endsLine);
    DeliverShape(s.output, s.config, env, Direct(record, 0), level, endsLine, false);
  }

  lemma WorkerLogsInOrder(s: State, s': State, level: nat, endsLine: bool, env: Env)
    requires Ordered(s) && Counters(s') && OneUpdater(s') && PlaceOf(s, WORKER).Idle?
    requires WorkerCan(s, WorkerLogs(level, endsLine, env)) && s' == WorkerNext(s, WorkerLogs(level, endsLine, env))
    ensures Ordered(s')
  {
    hide LinesInOrder, QueuedInOrder, LinesBefore, AllBelow, Counters, WorkerNext, WorkerCan;
    WorkerDelivers(s, s', level, endsLine, env);
    var n := |s.output.lines|;
    assert forall u :: PlaceOf(s', u) == PlaceOf(s, u) && CallsOf(s', u) >= CallsOf(s, u);
    assert forall u :: u != WORKER ==> CallsOf(s', u) == CallsOf(s, u);
    DirectKeepsOrder(s, s', WORKER, s'.output.lines[n]);
  }

  lemma WorkerQueuesInOrder(s: State, s': State, level: nat, endsLine: bool, mustFlush: bool)
    requires Ordered(s) && Counters(s') && OneUpdater(s')
    requires WorkerCan(s, WorkerQueues(level, endsLine, mustFlush))
    requires s' == WorkerNext(s, WorkerQueues(level, endsLine, mustFlush))
    ensures Ordered(s')
  {
    var record := Record(WORKER, CallsOf(s, WORKER), level, endsLine);
    assert forall u :: PlaceOf(s', u) == PlaceOf(s, u) && CallsOf(s', u) >= CallsOf(s, u);
    assert forall u :: u != WORKER ==> CallsOf(s', u) == CallsOf(s, u);
    QueuingKeepsOrder(s, s', Push(s.queue, Draft(record, mustFlush, false, 1)).0);
  }

  lemma QuietWorkerKeepsOrder(s: State, s': State, step: Step)
    requires Ordered(s) && WorkerCan(s, step) && s' == WorkerNext(s, step) && Counters(s') && OneUpdater(s')
    requires !step.WorkerWrites? && !step.WorkerQueues? && !step.WorkerLogs?
    ensures Ordered(s')
  {
    hide LinesInOrder, QueuedInOrder, LinesBefore, AllBelow;
    match step {
      case WorkerMarks => MarkingKeepsCounters(s);
      case WorkerPerforms(op, env) => PerformKeepsLines(s, op, env);
      case WorkerUpdates(mustStop) =>
        DecidingKeepsEntries(s.queue, false, MakeDuty(mustStop, s.output.isInitialized, s.config));
      case _ =>
    }
    HorizonSame(s, s');
    QuietStepKeepsOrder(s, s');
  }

  lemma WorkerKeepsOrder(s: State, s': State, step: Step)
    requires Ordered(s) && WorkerCan(s, step) && s' == WorkerNext(s, step)
    ensures Ordered(s')
  {
    hide LinesInOrder, QueuedInOrder, LinesBefore, AllBelow;
    WorkerKeepsCounters(s, step);
    WorkerMoves(s, step);
    assert forall t :: PlaceOf(s', t) == PlaceOf(s, t);
    match step
    case WorkerWrites(envs, dropEnv) => WritingKeepsOrder(s, s', envs, dropEnv);
    case WorkerQueues(level, endsLine, mustFlush) => WorkerQueuesInOrder(s, s', level, endsLine, mustFlush);
    case WorkerLogs(level, endsLine, env) => WorkerLogsInOrder(s, s', level, endsLine, env);
    case _ => QuietWorkerKeepsOrder(s, s', step);
  }

  lemma StepKeepsOrder(s: State, step: Step)
    requires Ordered(s) && Can(s, step)
    ensures Ordered(Next(s, step))
  {
    if CallerCan(s, step) {
      CallerKeepsOrder(s, Next(s, step), step);
    } else if ControlCan(s, step) {
      ControlKeepsOrder(s, Next(s, step), step);
    } else {
      WorkerKeepsOrder(s, Next(s, step), step);
    }
  }

  lemma {:induction false} RunKeepsOrder(s: State, steps: seq<Step>)
    requires Ordered(s) && IsRun(s, steps)
    ensures Ordered(After(s, steps))
    decreases |steps|
  {
    if steps != [] {
      StepKeepsOrder(s, steps[0]);
      RunKeepsOrder(Next(s, steps[0]), steps[1..]);
    }
  }
}
