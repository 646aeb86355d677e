/** What the configuration decides about the output and the worker: when a line leaves the buffer or reaches the disk, what
    each operation leaves behind, and which worker is wanted. */
module AsyncFlushing {
  import opened AsyncQueue
  import opened AsyncOutput
  import opened AsyncRun
  import opened AsyncOrder
  import opened AsyncThreads
  import opened AsyncDelivery

  /** The flush mode alone asks for a flush after the line. */
  predicate ModeFlushes(config: Config, endsLine: bool) {
    match config.flushMode
    case EveryWrite => true
    case OnNewLine => endsLine
    case Manual => false
    case Periodic => config.flushInterval <= 0
  }

  /** A level asks for a flush or a sync. */
  predicate LevelFlushes(config: Config, level: nat) {
    level >= config.flushAtLevel || level >= config.syncAtLevel
  }

  /** Nothing that was accepted is in the buffer. */
  ghost predicate NothingBuffered(o: Output) {
    forall i :: o.flushed <= i < |o.lines| ==> !o.lines[i].accepted
  }

  // ---- A direct write --------------------------------------------------------------------

  /** The line of one entry that isn't in a batch: whether it is accepted and into which file, and how far the flushed and
      the synced lines reach then. */
  ghost predicate IsWritten(o: Output, r: Output, config: Config, env: Env, record: Record) {
    var n, isReady := |o.lines|, o.isOpen || (env.opens && (config.autoClose || o.isInitialized));
    var isRotated := isReady && env.rotates && !env.filtered;
    && |r.lines| == n + 1 && r.lines[..n] == o.lines && (o.flushed <= n ==> o.flushed <= r.flushed)
    && r.lines[n].accepted == (isReady && !env.filtered && (env.rotates ==> env.reopens))
    && r.lines[n].file == r.file == (if isRotated then env.nextFile else o.file)
    && r.isOpen == (isReady && !config.autoClose && (isRotated ==> env.reopens))
    && (if r.lines[n].accepted then
          && r.flushed == (if config.autoClose || ModeFlushes(config, record.endsLine) || LevelFlushes(config, record.level)
                           then n + 1 else if env.rotates then n else o.flushed)
          && r.synced == if record.level >= config.syncAtLevel then o.synced[r.file := n + 1] else o.synced
        else
          r.synced == o.synced && (r.flushed == o.flushed || isRotated || config.autoClose))
  }

  /** A caller writes its entry itself. */
  lemma DirectWriteFlushes(s: State, t: nat, env: Env)
    requires CallerCan(s, WriteDirect(t, env))
    ensures IsWritten(s.output, CallerNext(s, WriteDirect(t, env)).output, s.config, env, PlaceOf(s, t).record)
  {
    DirectDelivers(s, WriteDirect(t, env));
    hide CallerNext, CallerCan, IsWritten;
    var p := PlaceOf(s, t);
    DirectIsWritten(s.output, s.config, env, Direct(p.record, p.dropsBefore), p.record);
  }

  /** A callback on the worker logs to an output that isn't asynchronous any more. */
  lemma WorkerLogFlushes(s: State, level: nat, endsLine: bool, env: Env)
    requires WorkerCan(s, WorkerLogs(level, endsLine, env))
    ensures IsWritten(s.output, WorkerNext(s, WorkerLogs(level, endsLine, env)).output, s.config, env,
                      Record(WORKER, CallsOf(s, WORKER), level, endsLine))
  {
    hide IsWritten, Deliver;
    var record := Record(WORKER, CallsOf(s, WORKER), level, endsLine);
    DirectIsWritten(s.output, s.config, env, Direct(record, 0), record);
  }

  lemma DirectIsWritten(o: Output, config: Config, env: Env, what: What, record: Record)
    requires what.Direct?
    ensures IsWritten(o, Deliver(o, config, env, what, record.level, record.endsLine, false), config, env, record)
  {
    hide Prepare, MaybeFlush, ModeFlushes, LevelFlushes;
    PreparedMeans(o, config, env, what);
    var p := Prepare(o, config, env, what);
    var line := Line(what, p.isOpen && !IsFiltered(what, env), record.level >= config.syncAtLevel, p.file);
    FlushedMeans(p.(lines := p.lines + [line]), config, record.level, record.endsLine);
  }

  lemma PreparedMeans(o: Output, config: Config, env: Env, what: What)
    requires what.Direct?
    ensures var p, isReady := Prepare(o, config, env, what), o.isOpen || (env.opens && (config.autoClose || o.isInitialized));
      var isRotated := isReady && env.rotates && !env.filtered;
      && p.lines == o.lines && p.synced == o.synced && p.flushed == (if isRotated then |o.lines| else o.flushed)
      && p.isOpen == (isReady && (isRotated ==> env.reopens)) && p.file == if isRotated then env.nextFile else o.file
  {
  }

  lemma FlushedMeans(q: Output, config: Config, level: nat, endsLine: bool)
    ensures var r := MaybeFlush(q, config, level, endsLine, false);
      && r == q.(flushed := r.flushed, synced := r.synced)
      && (q.isOpen ==>
            && r.flushed == (if ModeFlushes(config, endsLine) || LevelFlushes(config, level) then |q.lines| else q.flushed)
            && r.synced == if level >= config.syncAtLevel then q.synced[q.file := |q.lines|] else q.synced)
  {
  }

  // ---- A batch -----------------------------------------------------------------------------

  /** Nothing asks for a flush: neither the mode, nor a level, nor somebody who waits, a rotation or a close. */
  predicate AsksNothing(config: Config, batch: seq<Entry>, envs: seq<Env>) {
    && !config.autoClose && (forall i :: 0 <= i < |envs| ==> !envs[i].rotates)
    && forall i :: 0 <= i < |batch| ==> !batch[i].mustFlush && !LevelFlushes(config, batch[i].record.level)
  }

  lemma BatchEntry(o: Output, config: Config, env: Env, entry: Entry)
    ensures var r, n := DeliverEntry(o, config, env, entry), |o.lines|;
      && |r.lines| == n + 1 && (o.flushed <= n ==> o.flushed <= r.flushed <= n + 1)
      && (r.lines[n].accepted && LevelFlushes(config, entry.record.level) ==> r.flushed == n + 1)
      && (!config.autoClose && !env.rotates && !LevelFlushes(config, entry.record.level) ==>
            r.flushed == o.flushed && r.synced == o.synced)
  {
  }

  /** What the batch's lines alone have flushed before the flush for the whole batch. */
  lemma {:induction false} BatchFlushes(o: Output, config: Config, envs: seq<Env>, batch: seq<Entry>)
    requires |envs| == |batch| && o.flushed <= |o.lines|
    ensures var r, n := WriteBatch(o, config, envs, batch), |o.lines|;
      && |r.lines| == n + |batch| && o.flushed <= r.flushed <= |r.lines|
      && (forall k :: 0 <= k < |batch| && r.lines[n + k].accepted && LevelFlushes(config, batch[k].record.level) ==>
            n + k < r.flushed)
      && (AsksNothing(config, batch, envs) ==> r.flushed == o.flushed && r.synced == o.synced)
  {
    hide DeliverEntry, LevelFlushes;
    if batch != [] {
      var m := |batch| - 1;
      BatchFlushes(o, config, envs[..m], batch[..m]);
      var w := WriteBatch(o, config, envs[..m], batch[..m]);
      BatchEntry(w, config, envs[m], batch[m]);
      WriteBatchShape(o, config, envs, batch);
      var r := WriteBatch(o, config, envs, batch);
      assert r.lines[..|w.lines|] == w.lines by { EntryShape(w, config, envs[m], batch[m]); }
    }
  }

  /** A queued entry's line is accepted whenever the output is ready and stays open over a rotation, whether the logger is
      disabled meanwhile or not. */
  lemma BatchEntryIsAccepted(o: Output, config: Config, env: Env, entry: Entry)
    ensures var r, isReady := DeliverEntry(o, config, env, entry), o.isOpen || (env.opens && (config.autoClose || o.isInitialized));
      && |r.lines| == |o.lines| + 1
      && r.lines[|o.lines|].accepted == (isReady && (env.rotates ==> env.reopens))
      && r.isOpen == (isReady && (env.rotates ==> env.reopens) && !config.autoClose)
      && r.lines[|o.lines|].file == r.file == (if isReady && env.rotates then env.nextFile else o.file)
  {
  }

  lemma EntryShape(o: Output, config: Config, env: Env, entry: Entry)
    ensures DeliverEntry(o, config, env, entry).lines[..|o.lines|] == o.lines
  {
    hide Deliver;
    DeliverShape(o, config, env, Queued(entry), entry.record.level, entry.record.endsLine, true);
  }

  lemma DropLineFlushes(o: Output, config: Config, env: Env, count: nat, after: nat)
    requires o.flushed <= |o.lines|
    ensures var r := WriteDropLine(o, config, env, count, after);
      && |r.lines| == |o.lines| + (if count > 0 then 1 else 0) && r.lines[..|o.lines|] == o.lines
      && o.flushed <= r.flushed <= |r.lines|
      && (count > 0 ==> var isReady := o.isOpen || (env.opens && (config.autoClose || o.isInitialized));
            r.lines[|o.lines|].accepted == (isReady && !env.filtered && (env.rotates ==> env.reopens)))
      && (count > 0 && r.lines[|o.lines|].accepted && LevelFlushes(config, 3) ==> r.flushed == |r.lines|)
      && (count > 0 ==> !config.autoClose && !env.rotates && !LevelFlushes(config, 3) ==>
            r.flushed == o.flushed && r.synced == o.synced)
  {
  }

  lemma DropLineOk(o: Output, config: Config, env: Env, count: nat, after: nat, from: nat)
    requires OutputOk(o, from) && from <= |o.lines|
    ensures OutputOk(WriteDropLine(o, config, env, count, after), from)
  {
    hide OutputOk, Deliver;
    if count > 0 { DeliverOk(o, config, env, DropLine(count, after), WARN, true, true, from); }
  }

  lemma AfterBatch(o: Output, config: Config, mustFlush: bool, from: nat)
    requires OutputOk(o, from)
    ensures var r := AfterQueuedEntries(o, config, mustFlush);
      && r.lines == o.lines && o.flushed <= r.flushed <= |o.lines|
      && (ModeFlushes(config, true) ==> NothingBuffered(r))
      && (!ModeFlushes(config, true) && !mustFlush ==> r == o)
  {
    FlushOk(o, from);
  }

  lemma NobodyIsWaiting(o: Output, config: Config, envs: seq<Env>, batch: seq<Entry>)
    requires |envs| == |batch| && forall k :: 0 <= k < |batch| ==> !batch[k].mustFlush
    ensures !MustFlushFrom(WriteBatch(o, config, envs, batch).lines, |o.lines|)
  {
    hide WriteBatch;
    WriteBatchShape(o, config, envs, batch);
  }

  lemma LinesKeepPlace(o: Output, config: Config, envs: seq<Env>, dropEnv: Env, batch: seq<Entry>, count: nat, after: nat)
    requires |envs| == |batch| && OutputOk(o, |o.lines|)
    ensures var w, r, n := WriteBatch(o, config, envs, batch), WriteQueued(o, config, envs, dropEnv, batch, count, after), |o.lines|;
      && |w.lines| == n + |batch| && |r.lines| == n + |batch| + (if count > 0 then 1 else 0)
      && forall k :: 0 <= k < |batch| ==>
           r.lines[n + k] == w.lines[n + k] && (r.lines[n + k].accepted && batch[k].mustFlush ==> n + k < r.flushed)
  {
    hide OutputOk, WriteBatch, Deliver;
    WriteBatchShape(o, config, envs, batch);
    WriteQueuedShape(o, config, envs, dropEnv, batch, count, after);
    WriteQueuedOk(o, config, envs, dropEnv, batch, count, after);
    var w, r := WriteBatch(o, config, envs, batch), WriteQueued(o, config, envs, dropEnv, batch, count, after);
    if count > 0 { DeliverShape(w, config, dropEnv, DropLine(count, after), WARN, true, true); }
    assert r.lines[..|w.lines|] == w.lines;
    NobodyIsHeldBack(r);
  }

  lemma NobodyIsHeldBack(o: Output)
    requires OutputOk(o, |o.lines|)
    ensures forall i :: o.flushed <= i < |o.lines| ==> !NeedsFlush(o.lines[i])
  {
  }

  /** What of a batch, with 'count' drops to report (at level 3, Warn), has left the buffer: with a mode that flushes, all;
      with a level or a caller that waits, everything up to the entry; and if nothing of the kind asks for it, nothing. */
  ghost predicate IsBatchFlushed(o: Output, r: Output, config: Config, envs: seq<Env>, dropEnv: Env, batch: seq<Entry>,
                                 count: nat)
  {
    var n := |o.lines|;
    && |r.lines| == n + |batch| + (if count > 0 then 1 else 0)
    && (ModeFlushes(config, true) ==> NothingBuffered(r))
    && (forall k :: 0 <= k < |batch| && r.lines[n + k].accepted ==>
          (batch[k].mustFlush || LevelFlushes(config, batch[k].record.level) ==> n + k < r.flushed))
    && (count > 0 && r.lines[n + |batch|].accepted && LevelFlushes(config, 3) ==> r.flushed == |r.lines|)
    && (AsksNothing(config, batch, envs) && (count > 0 ==> !dropEnv.rotates && !LevelFlushes(config, 3)) ==>
          ModeFlushes(config, true) || (r.flushed == o.flushed && r.synced == o.synced))
  }

  lemma QueuedAreFlushed(o: Output, config: Config, envs: seq<Env>, dropEnv: Env, batch: seq<Entry>, count: nat, after: nat)
    requires OutputOk(o, |o.lines|) && |envs| == |batch|
    ensures IsBatchFlushed(o, WriteQueued(o, config, envs, dropEnv, batch, count, after), config, envs, dropEnv, batch, count)
  {
    hide OutputOk, WriteQueued, WriteBatch, LevelFlushes, ModeFlushes, NothingBuffered, AsksNothing;
    EntriesLeave(o, config, envs, dropEnv, batch, count, after);
    FlushedBehindBatch(o, config, envs, dropEnv, batch, count, after);
    if AsksNothing(config, batch, envs) && (count > 0 ==> !dropEnv.rotates && !LevelFlushes(config, 3)) {
      UnaskedStay(o, config, envs, dropEnv, batch, count, after);
    }
  }

  lemma EntriesLeave(o: Output, config: Config, envs: seq<Env>, dropEnv: Env, batch: seq<Entry>, count: nat, after: nat)
    requires OutputOk(o, |o.lines|) && |envs| == |batch|
    ensures var r, n := WriteQueued(o, config, envs, dropEnv, batch, count, after), |o.lines|;
      && n + |batch| <= |r.lines|
      && forall k :: 0 <= k < |batch| && r.lines[n + k].accepted ==>
           (batch[k].mustFlush || LevelFlushes(config, batch[k].record.level) ==> n + k < r.flushed)
  {
    assert o.flushed <= |o.lines|;
    hide OutputOk, WriteQueued, WriteBatch, LevelFlushes, ModeFlushes, NothingBuffered, AsksNothing;
    var r, n := WriteQueued(o, config, envs, dropEnv, batch, count, after), |o.lines|;
    LinesKeepPlace(o, config, envs, dropEnv, batch, count, after);
    BatchFlushes(o, config, envs, batch);
    FlushedBehindBatch(o, config, envs, dropEnv, batch, count, after);
    var w := WriteBatch(o, config, envs, batch);
    forall k | 0 <= k < |batch| && r.lines[n + k].accepted && (batch[k].mustFlush || LevelFlushes(config, batch[k].record.level))
      ensures n + k < r.flushed
    {
      assert r.lines[n + k] == w.lines[n + k];
    }
  }

  lemma FlushedBehindBatch(o: Output, config: Config, envs: seq<Env>, dropEnv: Env, batch: seq<Entry>, count: nat, after: nat)
    requires OutputOk(o, |o.lines|) && |envs| == |batch|
    ensures var w, r := WriteBatch(o, config, envs, batch), WriteQueued(o, config, envs, dropEnv, batch, count, after);
      && w.flushed <= r.flushed && (ModeFlushes(config, true) ==> NothingBuffered(r))
      && |r.lines| == |o.lines| + |batch| + (if count > 0 then 1 else 0)
      && (count > 0 && r.lines[|o.lines| + |batch|].accepted && LevelFlushes(config, 3) ==> r.flushed == |r.lines|)
  {
    assert o.flushed <= |o.lines|;
    hide OutputOk, WriteBatch, WriteDropLine, LevelFlushes, ModeFlushes, NothingBuffered, MustFlushFrom, AfterQueuedEntries;
    var w := WriteBatch(o, config, envs, batch);
    WriteBatchShape(o, config, envs, batch);
    BatchFlushes(o, config, envs, batch);
    WriteBatchOk(o, config, envs, batch, |o.lines|);
    DropLineFlushes(w, config, dropEnv, count, after);
    DropLineOk(w, config, dropEnv, count, after, |o.lines|);
    AfterBatch(WriteDropLine(w, config, dropEnv, count, after), config, MustFlushFrom(w.lines, |o.lines|), |o.lines|);
  }

  lemma UnaskedStay(o: Output, config: Config, envs: seq<Env>, dropEnv: Env, batch: seq<Entry>, count: nat, after: nat)
    requires OutputOk(o, |o.lines|) && |envs| == |batch| && AsksNothing(config, batch, envs)
    requires count > 0 ==> !dropEnv.rotates && !LevelFlushes(config, 3)
    ensures var r := WriteQueued(o, config, envs, dropEnv, batch, count, after);
      ModeFlushes(config, true) || (r.flushed == o.flushed && r.synced == o.synced)
  {
    assert o.flushed <= |o.lines|;
    hide OutputOk, WriteBatch, WriteDropLine, LevelFlushes, ModeFlushes, NothingBuffered, MustFlushFrom, AfterQueuedEntries;
    var w := WriteBatch(o, config, envs, batch);
    BatchFlushes(o, config, envs, batch);
    WriteBatchOk(o, config, envs, batch, |o.lines|);
    WriteBatchShape(o, config, envs, batch);
    DropLineFlushes(w, config, dropEnv, count, after);
    DropLineOk(w, config, dropEnv, count, after, |o.lines|);
    AfterBatch(WriteDropLine(w, config, dropEnv, count, after), config, MustFlushFrom(w.lines, |o.lines|), |o.lines|);
    NobodyIsWaiting(o, config, envs, batch);
  }

  /** The worker writes what it has taken. */
  lemma BatchIsFlushed(s: State, envs: seq<Env>, dropEnv: Env)
    requires OutputOk(s.output, |s.output.lines|) && WorkerCan(s, WorkerWrites(envs, dropEnv))
    ensures IsBatchFlushed(s.output, WorkerNext(s, WorkerWrites(envs, dropEnv)).output, s.config, envs, dropEnv,
                           s.worker.at.batch, s.worker.at.count)
  {
    hide OutputOk, WriteQueued, IsBatchFlushed;
    QueuedAreFlushed(s.output, s.config, envs, dropEnv, s.worker.at.batch, s.worker.at.count, s.worker.at.upTo);
  }

  /** FlushMode::Periodic: the worker wakes. */
  lemma WakeFlushes(s: State)
    requires OutputOk(s.output, |s.output.lines|) && WorkerCan(s, WorkerWakes)
    ensures var s' := WorkerNext(s, WorkerWakes);
      NothingBuffered(s'.output) && s' == s.(output := s.output.(flushed := s'.output.flushed))
  {
    FlushOk(s.output, |s.output.lines|);
  }

  // ---- A mode that flushes every entry ---------------------------------------------------------

  predicate FlushesAlways(config: Config) {
    config.flushMode == EveryWrite || (config.flushMode == Periodic && config.flushInterval <= 0)
  }

  predicate OpFlushesAlways(op: Op) {
    op.InitializeLog? || op.ReconfigureLog? ==> FlushesAlways(op.config)
  }

  predicate PlaceFlushesAlways(p: Place) {
    p.AwaitsUpTo? || p.Performs? ==> OpFlushesAlways(p.op)
  }

  predicate KeepsFlushing(step: Step) {
    step.Begin? || step.WorkerPerforms? ==> OpFlushesAlways(step.op)
  }

  ghost predicate Flushing(s: State) {
    && FlushesAlways(s.config) && NothingBuffered(s.output) && forall t :: PlaceFlushesAlways(PlaceOf(s, t))
  }

  lemma WrittenLeavesNothing(o: Output, r: Output, config: Config, env: Env, record: Record)
    requires IsWritten(o, r, config, env, record) && o.flushed <= |o.lines| && NothingBuffered(o) && FlushesAlways(config)
    ensures NothingBuffered(r)
  {
    assert forall i :: 0 <= i < |o.lines| ==> r.lines[i] == o.lines[i];
  }

  lemma OperationLeavesNothing(s: State, op: Op, env: Env)
    requires OutputOk(s.output, |s.output.lines|) && Flushing(s) && OpFlushesAlways(op)
    ensures NothingBuffered(PerformOp(s, op, env).output) && FlushesAlways(PerformOp(s, op, env).config)
  {
    OperationMeans(s, op, env);
    hide PerformOp, OutputOk;
  }

  lemma DirectLeavesNothing(s: State, step: Step)
    requires OutputOk(s.output, |s.output.lines|) && Flushing(s) && Can(s, step) && (step.WriteDirect? || step.WorkerLogs?)
    ensures NothingBuffered(Next(s, step).output) && Next(s, step).config == s.config
  {
    assert s.output.flushed <= |s.output.lines|;
    hide OutputOk, NothingBuffered, Deliver, IsWritten;
    if step.WriteDirect? {
      DirectWriteFlushes(s, step.t, step.env);
      WrittenLeavesNothing(s.output, Next(s, step).output, s.config, step.env, PlaceOf(s, step.t).record);
    } else {
      WorkerLogFlushes(s, step.level, step.endsLine, step.env);
      WrittenLeavesNothing(s.output, Next(s, step).output, s.config, step.env,
                           Record(WORKER, CallsOf(s, WORKER), step.level, step.endsLine));
    }
  }

  lemma OutputFlushes(s: State, step: Step)
    requires OutputOk(s.output, |s.output.lines|) && Flushing(s) && Can(s, step) && KeepsFlushing(step)
    ensures NothingBuffered(Next(s, step).output) && FlushesAlways(Next(s, step).config)
  {
    hide OutputOk, NothingBuffered, Deliver, WriteQueued, Enter, Admit, Decide, DecideOnWorker, MakeDuty, MakeDraft, PerformOp;
    if step.WriteDirect? || step.WorkerLogs? {
      DirectLeavesNothing(s, step);
    } else if step.WorkerWrites? {
      BatchIsFlushed(s, step.envs, step.dropEnv);
    } else if step.Perform? {
      assert PlaceFlushesAlways(PlaceOf(s, step.t));
      OperationLeavesNothing(s, PlaceOf(s, step.t).op, step.env);
    } else if step.WorkerPerforms? {
      OperationLeavesNothing(s, step.op, step.env);
    } else if step.WorkerWakes? {
      WakeFlushes(s);
    } else {
      OutputUntouched(s, step);
    }
  }

  lemma PlacesFlush(s: State, step: Step)
    requires Flushing(s) && Ordered(s) && Can(s, step) && KeepsFlushing(step)
    ensures forall t :: PlaceFlushesAlways(PlaceOf(Next(s, step), t))
  {
    hide CallerNext, ControlNext, WorkerNext, CallerCan, ControlCan, WorkerCan, NothingBuffered, FlushesAlways;
    if CallerCan(s, step) {
      CallerMoves(s, step);
      CallerPlace(s, Next(s, step), step);
    } else if ControlCan(s, step) {
      ControlMoves(s, step);
      ControlPlaceFlushes(s, step);
    } else {
      WorkerMoves(s, step);
      assert forall t :: PlaceOf(Next(s, step), t) == PlaceOf(s, t);
    }
  }

  lemma ControlPlaceFlushes(s: State, step: Step)
    requires Flushing(s) && ControlCan(s, step) && KeepsFlushing(step)
    ensures PlaceFlushesAlways(PlaceOf(ControlNext(s, step), step.t))
  {
    assert PlaceFlushesAlways(PlaceOf(s, step.t));
    hide Decide, MakeDuty, NothingBuffered;
    match step
    case Perform(t, env) => PerformKeepsLines(s, PlaceOf(s, t).op, env);
    case _ =>
  }

  lemma {:induction false} NothingStaysBuffered(s: State, steps: seq<Step>)
    requires Delivered(s) && Flushing(s) && IsRun(s, steps) && forall i :: 0 <= i < |steps| ==> KeepsFlushing(steps[i])
    ensures Flushing(After(s, steps))
    decreases |steps|
  {
    hide Next, Can, KeepsFlushing, FlushesAlways, NothingBuffered, OutputOk, Ordered, Waits;
    if steps != [] {
      OutputFlushes(s, steps[0]);
      PlacesFlush(s, steps[0]);
      StepDelivers(s, steps[0]);
      NothingStaysBuffered(Next(s, steps[0]), steps[1..]);
    }
  }

  /** If every configuration flushes each entry, nothing that was accepted is ever left in the buffer after a step: in any
      run, with asynchronous batches, rotations and reconfigurations. */
  lemma EveryRunFlushes(config: Config, steps: seq<Step>)
    requires FlushesAlways(config) && IsRun(Initial(config), steps) && forall i :: 0 <= i < |steps| ==> KeepsFlushing(steps[i])
    ensures NothingBuffered(After(Initial(config), steps).output)
  {
    InitialDelivers(config);
    NothingStaysBuffered(Initial(config), steps);
  }

  // ---- The operations ------------------------------------------------------------------------

  /** What an operation leaves behind, with nothing in the buffer but after Open() and Initialize(). */
  lemma OperationMeans(s: State, op: Op, env: Env)
    requires OutputOk(s.output, |s.output.lines|)
    ensures var s' := PerformOp(s, op, env);
      var o, r := s.output, s'.output;
      && s' == s.(config := s'.config, output := r) && r.lines == o.lines && r.synced == o.synced && o.flushed <= r.flushed
      && (!op.OpenLog? && !op.InitializeLog? && (o.isInitialized || !op.ReconfigureLog?) ==> NothingBuffered(r))
      && match op
         case FlushLog => s'.config == s.config && r == o.(flushed := r.flushed)
         case CloseLog => s'.config == s.config && !r.isOpen && !r.isInitialized && r.file == o.file
         case FinalizeLog => s'.config == s.config && !r.isOpen && !r.isInitialized && r.file == o.file
         case OpenLog =>
           && s'.config == s.config && r == o.(isOpen := r.isOpen, isInitialized := r.isInitialized)
           && r.isOpen == (o.isOpen || env.opens) && r.isInitialized == (o.isInitialized || env.opens)
         case InitializeLog(config) =>
           if o.isInitialized then s' == s
           else
             && s'.config == config && r.isInitialized == env.opens && r.isOpen == (env.opens && !config.autoClose)
             && r.file == (if env.rotates then env.nextFile else o.file)
         case ReconfigureLog(config) =>
           if !o.isInitialized then s' == s
           else
             && s'.config == config && r.isInitialized
             && if env.rotates || config.autoClose != s.config.autoClose then
                  r.isOpen == (env.reopens && !config.autoClose) && r.file == env.nextFile
                else r.isOpen == o.isOpen && r.file == o.file
  {
    FlushOk(s.output, |s.output.lines|);
  }

  // ---- The worker -----------------------------------------------------------------------------

  /** How often the worker should flush: 0 is never. */
  function WakeInterval(config: Config): int {
    if config.flushMode != Periodic || config.autoClose || config.flushInterval <= 0 then 0 else config.flushInterval
  }

  /** A worker is wanted by an initialized logger that is asynchronous or flushes on time. */
  predicate WantsOne(s: State, mustStop: bool) {
    !mustStop && s.output.isInitialized && (s.config.asyncEnabled || WakeInterval(s.config) > 0)
  }

  /** Async and the interval are as the configuration asks. */
  predicate HasDuties(q: Queue, config: Config) {
    && q.isAsyncActive == config.asyncEnabled && (config.asyncEnabled ==> q.isAsync)
    && (q.interval > 0) == (WakeInterval(config) > 0) && (q.interval > 0 ==> q.interval == WakeInterval(config))
  }

  /** UpdateWorker() keeps a worker that is wanted and not told to stop, with its new duties, tells any other one to stop,
      and starts one where there is none; async is then switched on as the configuration asked. */
  lemma DecisionMeans(s: State, t: nat)
    requires ControlCan(s, DecideWorker(t))
    ensures var mustStop, s' := PlaceOf(s, t).mustStop, ControlNext(s, DecideWorker(t));
      && s' == s.(queue := s'.queue, places := s.places[t := PlaceOf(s', t)], updater := s'.updater)
      && if !s.worker.NoThread? && !s.queue.isStopping && WantsOne(s, mustStop) then
           PlaceOf(s', t).Idle? && s'.updater.Free? && HasDuties(s'.queue, s.config) && !s'.queue.isStopping
         else if !s.worker.NoThread? then
           PlaceOf(s', t) == Joins(mustStop) && s'.updater == s.updater
           && s'.queue.isStopping && !s'.queue.isStoppingItself && !s'.queue.isAsyncActive
         else if WantsOne(s, mustStop) then
           PlaceOf(s', t) == Launches(s.config.asyncEnabled) && s'.updater == s.updater && !s'.queue.isStopping
           && HasDuties(SetActive(s'.queue, s.config.asyncEnabled), s.config)
         else PlaceOf(s', t).Idle? && s'.updater.Free? && s'.queue == s.queue
  {
  }

  /** The thread that has started a worker switches async on, and only then lets others update it. */
  lemma StartMeans(s: State, t: nat)
    requires ControlCan(s, LaunchWorker(t))
    ensures var isAsync, m := PlaceOf(s, t).isAsync, ControlNext(s, LaunchWorker(t));
      && m.worker == Running(Waiting, false) && m.queue == s.queue && m.updater == s.updater && ControlCan(m, ActivateAsync(t))
      && var s' := ControlNext(m, ActivateAsync(t));
         s'.queue.isAsyncActive == isAsync && (isAsync ==> s'.queue.isAsync) && s'.updater.Free? && PlaceOf(s', t).Idle?
  {
  }

  /** A callback on the worker: another thread's stop stands, and otherwise the worker goes on exactly if it is wanted. */
  lemma CallbackMeans(s: State, mustStop: bool)
    requires WorkerCan(s, WorkerUpdates(mustStop))
    ensures var q, q' := s.queue, WorkerNext(s, WorkerUpdates(mustStop)).queue;
      && (q.isStopping && !q.isStoppingItself ==> q' == q)
      && (!q.isStopping || q.isStoppingItself ==>
            q'.isStopping == !WantsOne(s, mustStop) && (WantsOne(s, mustStop) ==> HasDuties(q', s.config)))
      && (!q.isStopping && q'.isStopping ==> q'.isStoppingItself && !q'.isAsyncActive)
  {
  }

  /** A waiting worker goes on when it is told to stop, when there is something to write or to report, or when it is time to
      flush; it then acts on the stop as it found it. */
  lemma WhatWakes(s: State, isWakeDue: bool)
    requires s.worker.Running? && s.worker.at.Waiting?
    ensures WorkerCan(s, WorkerTakes(isWakeDue))
       <==> s.queue.isStopping || s.queue.entries != [] || s.queue.dropped > 0 || (isWakeDue && s.queue.interval > 0)
    ensures WorkerCan(s, WorkerTakes(isWakeDue)) ==>
      var s' := WorkerNext(s, WorkerTakes(isWakeDue));
      && s'.worker.Running? && s'.worker.stopFlag == s.queue.isStopping && s'.queue.entries == [] && s'.queue.dropped == 0
      && s'.worker.at == (if s.queue.entries != [] || s.queue.dropped > 0
                          then Taken(s.queue.entries, s.queue.dropped, s.queue.lastQueued) else Marked)
  {
  }

  /** Every operation but Flush() updates the worker afterwards, and Finalize() doesn't let go before there is none, whatever
      the logger's state is by then. */
  lemma UpdateFollows(s: State, step: Step)
    requires ControlCan(s, step) && HasThread(step)
    ensures var t, p, s' := step.t, PlaceOf(s, step.t), ControlNext(s, step);
      match step
      case Perform(_, _) => PlaceOf(s', t) == if p.op.FlushLog? then Idle else LocksWorker(p.op.FinalizeLog?)
      case LockWorker(_) => PlaceOf(s', t) == Decides(p.mustStop)
      case DecideWorker(_) => p.mustStop ==> PlaceOf(s', t) == if s.worker.NoThread? then Idle else Joins(true)
      case JoinWorker(_) => s'.worker.NoThread? && PlaceOf(s', t) == Decides(p.mustStop)
      case _ => true
  {
    match step
    case Perform(t, env) => PerformKeepsLines(s, PlaceOf(s, t).op, env);
    case _ =>
  }
}
