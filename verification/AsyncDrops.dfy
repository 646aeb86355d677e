/** Dropped entries: each is reported once, and with a fixed capacity the report stands where the drops happened. */
module AsyncDrops {
  import opened AsyncQueue
  import opened AsyncOutput
  import opened AsyncRun
  import opened AsyncOrder
  import opened AsyncThreads
  import L = AsyncLedger

  const ANYWHERE: int := -1

  predicate Counts(after: nat, at: int) {
    at < 0 || after == at
  }

  /** The drops that happened when 'at' was the last sequence number queued, or all of them. */
  function DropsIn(drops: seq<Drop>, at: int): nat {
    if drops == [] then 0
    else DropsIn(drops[..|drops| - 1], at) + if Counts(drops[|drops| - 1].after, at) then 1 else 0
  }

  function ReportOf(line: Line, at: int): nat {
    if line.what.DropLine? && Counts(line.what.after, at) then line.what.count else 0
  }

  /** The sum of the counts reported after the entry with this sequence number, or anywhere. */
  function ReportedIn(lines: seq<Line>, at: int): nat {
    if lines == [] then 0
    else ReportedIn(lines[..|lines| - 1], at) + ReportOf(lines[|lines| - 1], at)
  }

  function TakenDrops(w: Worker, at: int): nat {
    if w.Running? && w.at.Taken? && Counts(w.at.upTo, at) then w.at.count else 0
  }

  /** Every drop is reported, taken by the worker to be reported, or still counted in the queue. */
  ghost predicate Balanced(s: State, at: int) {
    DropsIn(s.drops, at)
      == ReportedIn(s.output.lines, at) + TakenDrops(s.worker, at) + if Counts(s.queue.lastQueued, at) then s.queue.dropped else 0
  }

  lemma ReportedSnoc(before: seq<Line>, after: seq<Line>, at: int)
    requires |after| == |before| + 1 && after[..|before|] == before
    ensures ReportedIn(after, at) == ReportedIn(before, at) + ReportOf(after[|before|], at)
  {
  }

  lemma {:induction false} NothingReported(before: seq<Line>, after: seq<Line>, at: int)
    requires |before| <= |after| && after[..|before|] == before
    requires forall i :: |before| <= i < |after| ==> !after[i].what.DropLine?
    ensures ReportedIn(after, at) == ReportedIn(before, at)
    decreases |after|
  {
    if |after| == |before| {
      assert after == before;
    } else {
      var shorter := after[..|after| - 1];
      assert shorter[..|before|] == before;
      NothingReported(before, shorter, at);
    }
  }

  lemma WriteReports(o: Output, config: Config, envs: seq<Env>, dropEnv: Env, batch: seq<Entry>, count: nat, after: nat, at: int)
    requires |envs| == |batch|
    ensures ReportedIn(WriteQueued(o, config, envs, dropEnv, batch, count, after).lines, at)
         == ReportedIn(o.lines, at) + if Counts(after, at) then count else 0
  {
    var r := WriteQueued(o, config, envs, dropEnv, batch, count, after);
    WriteQueuedShape(o, config, envs, dropEnv, batch, count, after);
    var n := |o.lines| + |batch|;
    var entries := r.lines[..n];
    assert entries[..|o.lines|] == o.lines;
    assert forall i :: 0 <= i < n ==> entries[i] == r.lines[i];
    NothingReported(o.lines, entries, at);
    if count > 0 { ReportedSnoc(entries, r.lines, at); } else { assert entries == r.lines; }
  }

  lemma AdmittedBalanced(s: State, s': State, t: nat, draft: Draft, admission: Admission, queue: Queue, at: int)
    requires Balanced(s, at) && s' == Admitted(s, t, draft, admission, queue)
    requires queue.dropped == s.queue.dropped + if admission.Dropped? then 1 else 0
    requires queue.lastQueued == s.queue.lastQueued || (queue.dropped == 0 && s.queue.dropped == 0) || at < 0
    ensures Balanced(s', at)
  {
    if admission.Dropped? {
      assert s'.drops[..|s.drops|] == s.drops;
    }
  }

  lemma CallerBalanced(s: State, s': State, step: Step, at: int)
    requires Balanced(s, at) && CallerCan(s, step) && s' == CallerNext(s, step)
    requires at < 0 || s'.queue.lastQueued == s.queue.lastQueued || s.queue.dropped == 0
    ensures Balanced(s', at)
  {
    hide CallerNext, CallerCan;
    if IsSection(step) {
      SectionAdmits(s, step);
      var draft := DraftOf(PlaceOf(s, step.t));
      var (admission, queue) := SectionOf(s.queue, draft, step);
      hide SectionOf;
      AdmittedBalanced(s, s', step.t, draft, admission, queue, at);
    } else if step.WriteDirect? {
      DirectDelivers(s, step);
      hide Deliver;
      ReportedSnoc(s.output.lines, s'.output.lines, at);
    } else {
      OthersAreQuiet(s, step);
    }
  }

  lemma WorkerBalanced(s: State, s': State, step: Step, at: int)
    requires Balanced(s, at) && WorkerCan(s, step) && s' == WorkerNext(s, step)
    requires FlagFollows(s.queue) && s.queue.lastWritten <= s.queue.lastQueued
    requires at < 0 || !step.WorkerQueues?
    ensures Balanced(s', at)
  {
    match step
    case WorkerWrites(envs, dropEnv) =>
      var w := s.worker.at;
      WriteReports(s.output, s.config, envs, dropEnv, w.batch, w.count, w.upTo, at);
    case WorkerLogs(level, endsLine, env) =>
      var record := Record(WORKER, CallsOf(s, WORKER), level, endsLine);
      DeliverShape(s.output, s.config, env, Direct(record, 0), level, endsLine, false);
      ReportedSnoc(s.output.lines, s'.output.lines, at);
    case WorkerPerforms(op, env) => PerformKeepsLines(s, op, env);
    case WorkerUpdates(mustStop) =>
      DecidingKeepsEntries(s.queue, false, MakeDuty(mustStop, s.output.isInitialized, s.config));
    case _ =>
  }

  lemma StepBalanced(s: State, step: Step, at: int)
    requires Balanced(s, at) && Ordered(s) && Can(s, step)
    requires at < 0 || Next(s, step).queue.lastQueued == s.queue.lastQueued || s.queue.dropped == 0
    requires at < 0 || !step.WorkerQueues?
    ensures Balanced(Next(s, step), at)
  {
    hide CallerNext, ControlNext, WorkerNext, CallerCan, ControlCan, WorkerCan, Balanced;
    var s' := Next(s, step);
    if CallerCan(s, step) {
      CallerBalanced(s, s', step, at);
    } else if ControlCan(s, step) {
      ControlBalanced(s, s', step, at);
    } else {
      WorkerBalanced(s, s', step, at);
    }
  }

  lemma ControlBalanced(s: State, s': State, step: Step, at: int)
    requires Balanced(s, at) && Counters(s) && OneUpdater(s) && ControlCan(s, step) && s' == ControlNext(s, step)
    ensures Balanced(s', at)
  {
    ControlKeepsProgress(s, step);
    L.ControlKeepsDrops(s, s', step);
    hide ControlNext, ControlCan, WrittenEntries;
  }

  /** In every run, the drops reported, about to be reported and still counted are exactly the entries dropped. */
  lemma {:induction false} RunBalanced(s: State, steps: seq<Step>)
    requires Balanced(s, ANYWHERE) && Ordered(s) && IsRun(s, steps)
    ensures Balanced(After(s, steps), ANYWHERE)
    decreases |steps|
  {
    if steps != [] {
      StepBalanced(s, steps[0], ANYWHERE);
      StepKeepsOrder(s, steps[0]);
      RunBalanced(Next(s, steps[0]), steps[1..]);
    }
  }

  // ---- A fixed capacity, and no logging on the worker --------------------------

  function CapacityOf(config: Config): nat {
    if config.queueCapacity > 1 then config.queueCapacity else 1
  }

  predicate OpKeepsCapacity(op: Op, c: nat) {
    op.InitializeLog? || op.ReconfigureLog? ==> CapacityOf(op.config) == c
  }

  predicate PlaceHasCapacity(p: Place, c: nat) {
    match p
    case Enters(draft) => draft.capacity == c
    case AwaitsRoom(draft) => draft.capacity == c
    case AwaitsUpTo(op, _) => OpKeepsCapacity(op, c)
    case Performs(op, _) => OpKeepsCapacity(op, c)
    case _ => true
  }

  predicate KeepsCapacity(step: Step, c: nat) {
    match step
    case Begin(_, op) => OpKeepsCapacity(op, c)
    case WorkerPerforms(op, _) => OpKeepsCapacity(op, c)
    case WorkerQueues(_, _, _) => false
    case _ => true
  }

  ghost predicate FixedCapacity(s: State, c: nat) {
    CapacityOf(s.config) == c && forall t :: PlaceHasCapacity(PlaceOf(s, t), c)
  }

  /** The queue never holds more than its capacity, and drops are counted only while it is full. */
  ghost predicate Bounded(s: State, c: nat) {
    && |s.queue.entries| <= c
    && (s.queue.dropped > 0 ==> |s.queue.entries| == c)
    && (s.worker.Running? && s.worker.at.Taken? && s.worker.at.count > 0 ==> s.worker.at.batch != [])
  }

  /** A direct line stands after the report of every entry dropped before its caller left the queue. */
  ghost predicate DirectAfterReports(s: State) {
    && (forall i :: 0 <= i < |s.output.lines| && s.output.lines[i].what.Direct? ==>
          s.output.lines[i].what.dropsBefore <= ReportedIn(s.output.lines[..i], ANYWHERE))
    && (forall t :: PlaceOf(s, t).WritesDirectly? ==> PlaceOf(s, t).dropsBefore <= ReportedIn(s.output.lines, ANYWHERE))
  }

  /** A report stands after exactly the entries up to the sequence number it gives. */
  ghost predicate ReportsInPlace(lines: seq<Line>) {
    forall i :: 0 <= i < |lines| && lines[i].what.DropLine? ==> |WrittenEntries(lines[..i])| == lines[i].what.after
  }

  ghost predicate DropsReported(s: State, c: nat) {
    && c >= 1
    && Ordered(s)
    && FixedCapacity(s, c)
    && Bounded(s, c)
    && Balanced(s, ANYWHERE)
    && (forall at: nat :: Balanced(s, at))
    && DirectAfterReports(s)
    && ReportsInPlace(s.output.lines)
  }

  lemma CallerPlaceCapacity(s: State, s': State, step: Step, c: nat)
    requires CapacityOf(s.config) == c && CallerCan(s, step) && s' == CallerNext(s, step)
    requires PlaceHasCapacity(PlaceOf(s, step.t), c)
    ensures PlaceHasCapacity(PlaceOf(s', step.t), c) && s'.config == s.config
  {
    hide Enter, Admit, Deliver;
  }

  lemma ControlPlaceCapacity(s: State, s': State, step: Step, c: nat)
    requires CapacityOf(s.config) == c && ControlCan(s, step) && s' == ControlNext(s, step) && KeepsCapacity(step, c)
    requires PlaceHasCapacity(PlaceOf(s, step.t), c)
    ensures PlaceHasCapacity(PlaceOf(s', step.t), c) && CapacityOf(s'.config) == c
  {
    match step
    case Perform(t, env) => PerformKeepsLines(s, PlaceOf(s, t).op, env);
    case _ =>
  }

  lemma CapacityKept(s: State, s': State, step: Step, c: nat)
    requires FixedCapacity(s, c) && KeepsCapacity(step, c) && Can(s, step) && s' == Next(s, step)
    requires forall u :: HoldsUpdate(PlaceOf(s, u)) ==> s.updater == HeldBy(u)
    ensures FixedCapacity(s', c)
  {
    if CallerCan(s, step) {
      CallerMoves(s, step);
      CallerPlaceCapacity(s, s', step, c);
    } else if ControlCan(s, step) {
      ControlMoves(s, step);
      ControlPlaceCapacity(s, s', step, c);
    } else {
      WorkerMoves(s, step);
      WorkerCapacity(s, s', step, c);
      assert forall t :: PlaceOf(s', t) == PlaceOf(s, t);
    }
  }

  lemma WorkerCapacity(s: State, s': State, step: Step, c: nat)
    requires CapacityOf(s.config) == c && WorkerCan(s, step) && s' == WorkerNext(s, step) && KeepsCapacity(step, c)
    ensures CapacityOf(s'.config) == c
  {
    match step
    case WorkerPerforms(op, env) => PerformKeepsLines(s, op, env);
    case _ =>
  }

  lemma CallerStaysBounded(s: State, s': State, step: Step, c: nat)
    requires Bounded(s, c) && CallerCan(s, step) && s' == CallerNext(s, step) && PlaceHasCapacity(PlaceOf(s, step.t), c)
    ensures Bounded(s', c)
    ensures s'.queue.lastQueued == s.queue.lastQueued || s.queue.dropped == 0
  {
    hide CallerNext, CallerCan;
    if IsSection(step) {
      hide Bounded;
      SectionStaysBounded(s, s', step, c);
    } else if step.WriteDirect? {
      DirectDelivers(s, step);
      hide Deliver;
    } else {
      OthersAreQuiet(s, step);
    }
  }

  lemma SectionStaysBounded(s: State, s': State, step: Step, c: nat)
    requires Bounded(s, c) && CallerCan(s, step) && s' == CallerNext(s, step) && PlaceHasCapacity(PlaceOf(s, step.t), c)
    requires IsSection(step)
    ensures Bounded(s', c)
    ensures s'.queue.lastQueued == s.queue.lastQueued || s.queue.dropped == 0
  {
    hide CallerNext, CallerCan;
    SectionAdmits(s, step);
    hide SectionOf;
  }

  lemma StaysBounded(s: State, s': State, step: Step, c: nat)
    requires c >= 1 && Ordered(s) && FixedCapacity(s, c) && Bounded(s, c) && KeepsCapacity(step, c)
    requires Can(s, step) && s' == Next(s, step)
    ensures Bounded(s', c)
    ensures s'.queue.lastQueued == s.queue.lastQueued || s.queue.dropped == 0
  {
    hide CallerNext, ControlNext, WorkerNext, KeepsCapacity, ControlCan, WorkerCan;
    if CallerCan(s, step) {
      assert PlaceHasCapacity(PlaceOf(s, step.t), c);
      CallerStaysBounded(s, s', step, c);
    } else if ControlCan(s, step) {
      ControlKeepsBounded(s, s', step, c);
    } else {
      OnlyWithoutQueuing(step, c);
      WorkerStaysBounded(s, s', step, c);
    }
  }

  lemma ControlKeepsBounded(s: State, s': State, step: Step, c: nat)
    requires Counters(s) && OneUpdater(s) && Bounded(s, c) && ControlCan(s, step) && s' == ControlNext(s, step)
    ensures Bounded(s', c) && s'.queue.lastQueued == s.queue.lastQueued
  {
    hide ControlNext;
    ControlKeepsProgress(s, step);
    ControlWorker(s, s', step);
  }

  lemma OnlyWithoutQueuing(step: Step, c: nat)
    requires KeepsCapacity(step, c)
    ensures !step.WorkerQueues?
  {
  }

  lemma ControlWorker(s: State, s': State, step: Step)
    requires ControlCan(s, step) && s' == ControlNext(s, step)
    ensures s'.worker == s.worker || !s'.worker.Running? || s'.worker.at.Waiting?
  {
    match step
    case Perform(t, env) => PerformKeepsLines(s, PlaceOf(s, t).op, env);
    case _ =>
  }

  lemma WorkerStaysBounded(s: State, s': State, step: Step, c: nat)
    requires c >= 1 && Counters(s) && Bounded(s, c) && WorkerCan(s, step) && s' == WorkerNext(s, step) && !step.WorkerQueues?
    ensures Bounded(s', c) && s'.queue.lastQueued == s.queue.lastQueued
  {
    match step
    case WorkerPerforms(op, env) => PerformKeepsLines(s, op, env);
    case WorkerUpdates(mustStop) =>
      DecidingKeepsEntries(s.queue, false, MakeDuty(mustStop, s.output.isInitialized, s.config));
    case _ =>
  }

  /** When nothing is queued or unwritten, every drop so far has been reported. */
  lemma DrainedMeansReported(s: State, c: nat)
    requires c >= 1 && Counters(s) && Bounded(s, c) && Balanced(s, ANYWHERE) && s.queue.lastWritten >= s.queue.lastQueued
    ensures |s.drops| == ReportedIn(s.output.lines, ANYWHERE)
  {
    assert |InFlight(s.worker) + s.queue.entries| == 0;
    AllDrops(s.drops);
  }

  lemma {:induction false} AllDrops(drops: seq<Drop>)
    ensures DropsIn(drops, ANYWHERE) == |drops|
  {
    if drops != [] { AllDrops(drops[..|drops| - 1]); }
  }

  /** Appending lines keeps what holds of the lines before, if it holds of the new ones. */
  lemma AppendedInPlace(before: seq<Line>, after: seq<Line>)
    requires |before| <= |after| && after[..|before|] == before && ReportsInPlace(before)
    requires forall i :: |before| <= i < |after| && after[i].what.DropLine? ==> |WrittenEntries(after[..i])| == after[i].what.after
    ensures ReportsInPlace(after)
  {
    forall i | 0 <= i < |after| && after[i].what.DropLine? ensures |WrittenEntries(after[..i])| == after[i].what.after {
      if i < |before| { assert after[..i] == before[..i] && after[i] == before[i]; }
    }
  }

  lemma BatchReportsInPlace(s: State, s': State, envs: seq<Env>, dropEnv: Env)
    requires Counters(s) && ReportsInPlace(s.output.lines) && s.worker.Running? && s.worker.at.Taken?
    requires |envs| == |s.worker.at.batch| && s' == WriteTaken(s, envs, dropEnv)
    ensures ReportsInPlace(s'.output.lines)
  {
    var at, n, lines := s.worker.at, |s.output.lines|, s'.output.lines;
    WriteQueuedShape(s.output, s.config, envs, dropEnv, at.batch, at.count, at.upTo);
    forall i | n <= i < |lines| && lines[i].what.DropLine? ensures |WrittenEntries(lines[..i])| == lines[i].what.after {
      var entries := lines[..i];
      assert entries[..n] == s.output.lines && forall j :: 0 <= j < i ==> entries[j] == lines[j];
      WrittenAppend(s.output.lines, entries, at.batch);
    }
    AppendedInPlace(s.output.lines, lines);
  }

  lemma StaysInPlace(s: State, s': State, step: Step)
    requires Ordered(s) && ReportsInPlace(s.output.lines) && Can(s, step) && s' == Next(s, step)
    ensures ReportsInPlace(s'.output.lines)
  {
    if step.WorkerWrites? {
      BatchReportsInPlace(s, s', step.envs, step.dropEnv);
    } else {
      LinesGrow(s, s', step);
      AppendedInPlace(s.output.lines, s'.output.lines);
    }
  }

  /** Only direct lines were appended, with the drops counted where their thread got to the direct write. */
  ghost predicate OnlyDirect(s: State, s': State, dropsBefore: nat) {
    && |s.output.lines| <= |s'.output.lines| && s'.output.lines[..|s.output.lines|] == s.output.lines
    && forall i :: |s.output.lines| <= i < |s'.output.lines| ==>
         s'.output.lines[i].what.Direct? && s'.output.lines[i].what.dropsBefore == dropsBefore
  }

  lemma CallerLines(s: State, s': State, step: Step)
    requires CallerCan(s, step) && s' == CallerNext(s, step)
    ensures step.WriteDirect? ==> PlaceOf(s, step.t).WritesDirectly?
    ensures OnlyDirect(s, s', if step.WriteDirect? then PlaceOf(s, step.t).dropsBefore else 0)
    ensures |s.output.lines| < |s'.output.lines| ==> step.WriteDirect?
  {
    hide CallerNext, CallerCan;
    if IsSection(step) {
      SectionAdmits(s, step);
      hide SectionOf;
    } else if step.WriteDirect? {
      DirectDelivers(s, step);
      hide Deliver;
    } else {
      OthersAreQuiet(s, step);
    }
  }

  lemma ControlLines(s: State, s': State, step: Step)
    requires ControlCan(s, step) && s' == ControlNext(s, step)
    ensures s'.output.lines == s.output.lines
  {
    if step.Perform? {
      PerformKeepsLines(s, PlaceOf(s, step.t).op, step.env);
    }
  }

  lemma WorkerLines(s: State, s': State, step: Step)
    requires WorkerCan(s, step) && s' == WorkerNext(s, step) && !step.WorkerWrites?
    ensures OnlyDirect(s, s', 0)
    ensures |s.output.lines| < |s'.output.lines| ==> step.WorkerLogs?
  {
    if step.WorkerLogs? {
      DeliverShape(s.output, s.config, step.env, Direct(Record(WORKER, CallsOf(s, WORKER), step.level, step.endsLine), 0),
                   step.level, step.endsLine, false);
    } else if step.WorkerPerforms? {
      PerformKeepsLines(s, step.op, step.env);
    }
  }

  lemma LinesGrow(s: State, s': State, step: Step)
    requires Can(s, step) && s' == Next(s, step) && !step.WorkerWrites?
    ensures OnlyDirect(s, s', if step.WriteDirect? then PlaceOf(s, step.t).dropsBefore else 0)
    ensures |s.output.lines| < |s'.output.lines| ==> step.WriteDirect? || step.WorkerLogs?
  {
    if CallerCan(s, step) {
      CallerLines(s, s', step);
    } else if ControlCan(s, step) {
      ControlLines(s, s', step);
    } else {
      WorkerLines(s, s', step);
    }
  }

  /** Where a thread enters the direct write, its count of drops is the one of that moment. */
  lemma EntersDirect(s: State, s': State, step: Step)
    requires Ordered(s) && CallerCan(s, step) && s' == CallerNext(s, step) && PlaceOf(s', step.t).WritesDirectly?
    ensures s.queue.lastWritten >= s.queue.lastQueued && PlaceOf(s', step.t).dropsBefore == |s.drops|
  {
    hide Deliver, MakeDraft;
  }

  lemma {:induction false} ReportedGrows(before: seq<Line>, after: seq<Line>)
    requires |before| <= |after| && after[..|before|] == before
    ensures ReportedIn(before, ANYWHERE) <= ReportedIn(after, ANYWHERE)
    decreases |after|
  {
    if |after| == |before| {
      assert after == before;
    } else {
      var shorter := after[..|after| - 1];
      assert shorter[..|before|] == before;
      ReportedGrows(before, shorter);
    }
  }

  lemma DirectLinesStay(before: seq<Line>, after: seq<Line>)
    requires |before| <= |after| && after[..|before|] == before
    requires forall i :: 0 <= i < |before| && before[i].what.Direct? ==>
               before[i].what.dropsBefore <= ReportedIn(before[..i], ANYWHERE)
    requires forall i :: |before| <= i < |after| && after[i].what.Direct? ==>
               after[i].what.dropsBefore <= ReportedIn(before, ANYWHERE)
    ensures forall i :: 0 <= i < |after| && after[i].what.Direct? ==>
              after[i].what.dropsBefore <= ReportedIn(after[..i], ANYWHERE)
  {
    forall i | 0 <= i < |after| && after[i].what.Direct?
      ensures after[i].what.dropsBefore <= ReportedIn(after[..i], ANYWHERE)
    {
      if i < |before| {
        assert after[..i] == before[..i] && after[i] == before[i];
      } else {
        assert after[..i][..|before|] == before;
        ReportedGrows(before, after[..i]);
      }
    }
  }

  lemma DirectLinesAfterReports(s: State, s': State, step: Step)
    requires DirectAfterReports(s) && Can(s, step) && s' == Next(s, step)
    ensures forall i :: 0 <= i < |s'.output.lines| && s'.output.lines[i].what.Direct? ==>
              s'.output.lines[i].what.dropsBefore <= ReportedIn(s'.output.lines[..i], ANYWHERE)
    ensures ReportedIn(s.output.lines, ANYWHERE) <= ReportedIn(s'.output.lines, ANYWHERE)
  {
    if step.WorkerWrites? {
      var at := s.worker.at;
      WriteQueuedShape(s.output, s.config, step.envs, step.dropEnv, at.batch, at.count, at.upTo);
    } else {
      LinesGrow(s, s', step);
    }
    DirectLinesStay(s.output.lines, s'.output.lines);
    ReportedGrows(s.output.lines, s'.output.lines);
  }

  lemma DirectStaysAfterReports(s: State, s': State, step: Step, c: nat)
    requires DropsReported(s, c) && Can(s, step) && s' == Next(s, step)
    ensures DirectAfterReports(s')
  {
    DirectLinesAfterReports(s, s', step);
    forall t | PlaceOf(s', t).WritesDirectly?
      ensures PlaceOf(s', t).dropsBefore <= ReportedIn(s'.output.lines, ANYWHERE)
    {
      DirectPlaces(s, s', step, t);
      if PlaceOf(s', t) != PlaceOf(s, t) { DrainedMeansReported(s, c); }
    }
  }

  lemma DirectPlaces(s: State, s': State, step: Step, t: nat)
    requires Ordered(s) && Can(s, step) && s' == Next(s, step) && PlaceOf(s', t).WritesDirectly?
    ensures PlaceOf(s', t) == PlaceOf(s, t) ||
            (s.queue.lastWritten >= s.queue.lastQueued && PlaceOf(s', t).dropsBefore == |s.drops|)
  {
    if CallerCan(s, step) {
      CallerMoves(s, step);
      if t == step.t { EntersDirect(s, s', step); }
    } else if ControlCan(s, step) {
      ControlMoves(s, step);
      ControlCarriesNothing(s, s', step);
    } else {
      WorkerMoves(s, step);
    }
  }

  lemma StepReportsDrops(s: State, step: Step, c: nat)
    requires DropsReported(s, c) && Can(s, step) && KeepsCapacity(step, c)
    ensures DropsReported(Next(s, step), c)
  {
    var s' := Next(s, step);
    StepKeepsOrder(s, step);
    CapacityKept(s, s', step, c);
    StaysBounded(s, s', step, c);
    StepBalanced(s, step, ANYWHERE);
    forall at: nat ensures Balanced(s', at) { StepBalanced(s, step, at); }
    DirectStaysAfterReports(s, s', step, c);
    StaysInPlace(s, s', step);
  }

  lemma {:induction false} RunReportsDrops(s: State, steps: seq<Step>, c: nat)
    requires DropsReported(s, c) && IsRun(s, steps)
    requires forall i :: 0 <= i < |steps| ==> KeepsCapacity(steps[i], c)
    ensures DropsReported(After(s, steps), c)
    decreases |steps|
  {
    if steps != [] {
      StepReportsDrops(s, steps[0], c);
      RunReportsDrops(Next(s, steps[0]), steps[1..], c);
    }
  }

  lemma InitialReportsDrops(config: Config)
    ensures DropsReported(Initial(config), CapacityOf(config))
  {
  }
}
