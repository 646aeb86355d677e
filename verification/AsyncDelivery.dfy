/** What a caller may rely on when its call returns: which lines are flushed, and which are on the disk. */
module AsyncDelivery {
  import opened AsyncQueue
  import opened AsyncOutput
  import opened AsyncRun
  import opened AsyncOrder
  import opened AsyncCalls
  import opened AsyncThreads

  // ---- Flushed and synced lines ----------------------------------------------

  /** A line written at or above the sync level took everything before it in its file to the disk. */
  ghost predicate SyncedUpTo(o: Output, i: nat)
    requires i < |o.lines|
  {
    o.lines[i].accepted && o.lines[i].syncs ==>
      forall j :: 0 <= j <= i && o.lines[j].file == o.lines[i].file ==> o.OnDisk(j)
  }

  /** A closed output holds nothing back; of the lines before 'from', none that a caller waits for is unflushed. */
  ghost predicate OutputOk(o: Output, from: nat) {
    && o.flushed <= |o.lines|
    && (o.isOpen ==> o.isInitialized)
    && (!o.isOpen ==> forall i :: o.flushed <= i < |o.lines| ==> !o.lines[i].accepted)
    && (forall i :: o.flushed <= i < |o.lines| && i < from ==> !NeedsFlush(o.lines[i]))
    && (forall f :: f in o.synced ==> SyncsAt(o, f, o.synced[f]))
    && (forall i :: 0 <= i < |o.lines| ==> SyncedUpTo(o, i))
  }

  /** Only the sync after a line of the file moves its synced position, to just after that line. */
  ghost predicate SyncsAt(o: Output, file: nat, position: nat) {
    0 < position <= |o.lines| && o.lines[position - 1].accepted && o.lines[position - 1].syncs
    && o.lines[position - 1].file == file
  }

  lemma PrepareOk(o: Output, config: Config, env: Env, what: What, from: nat)
    requires OutputOk(o, from)
    ensures OutputOk(Prepare(o, config, env, what), from) && Prepare(o, config, env, what).lines == o.lines
  {
    var p := Prepare(o, config, env, what);
    assert forall i :: 0 <= i < |o.lines| ==> SyncedUpTo(o, i) == SyncedUpTo(p, i);
  }

  lemma AppendOk(o: Output, line: Line, from: nat)
    requires OutputOk(o, from) && from <= |o.lines| && (line.accepted ==> o.isOpen) && line.file == o.file
    requires line.accepted && line.syncs ==> o.isOpen
    ensures var q := o.(lines := o.lines + [line]);
            if line.accepted && line.syncs then OutputOk(Sync(q), from) else OutputOk(q, from)
  {
    var q := o.(lines := o.lines + [line]);
    var r := if line.accepted && line.syncs then Sync(q) else q;
    forall i | 0 <= i < |r.lines| ensures SyncedUpTo(r, i) {
      if i < |o.lines| {
        assert SyncedUpTo(o, i);
        assert forall j :: 0 <= j <= i && o.OnDisk(j) ==> r.OnDisk(j);
      }
    }
  }

  lemma FlushOk(o: Output, from: nat)
    requires OutputOk(o, from)
    ensures OutputOk(Flush(o), from) && OutputOk(Close(o), from)
    ensures forall i :: Flush(o).flushed <= i < |o.lines| ==> !o.lines[i].accepted
    ensures OutputOk(Flush(o), |o.lines|) && OutputOk(Close(o), |o.lines|) && OutputOk(Shut(o), |o.lines|)
  {
    assert forall i :: 0 <= i < |o.lines| ==> SyncedUpTo(o, i) == SyncedUpTo(Flush(o), i) == SyncedUpTo(Close(o), i);
    assert forall i :: 0 <= i < |o.lines| ==> SyncedUpTo(o, i) == SyncedUpTo(Shut(o), i);
  }

  lemma DeliverOk(o: Output, config: Config, env: Env, what: What, level: nat, endsLine: bool, inBatch: bool, from: nat)
    requires OutputOk(o, from) && from <= |o.lines|
    ensures OutputOk(Deliver(o, config, env, what, level, endsLine, inBatch), from)
  {
    var p := Prepare(o, config, env, what);
    PrepareOk(o, config, env, what, from);
    var accepted := p.isOpen && !IsFiltered(what, env);
    var line := Line(what, accepted, level >= config.syncAtLevel, p.file);
    AppendOk(p, line, from);
    var q := p.(lines := p.lines + [line]);
    if !(accepted && line.syncs) { FlushOk(q, from); }
    FlushOk(if accepted then MaybeFlush(q, config, level, endsLine, inBatch) else q, from);
  }

  lemma {:induction false} WriteBatchOk(o: Output, config: Config, envs: seq<Env>, batch: seq<Entry>, from: nat)
    requires |envs| == |batch| && OutputOk(o, from) && from <= |o.lines|
    ensures OutputOk(WriteBatch(o, config, envs, batch), from)
  {
    if batch != [] {
      var n := |batch| - 1;
      WriteBatchOk(o, config, envs[..n], batch[..n], from);
      WriteBatchShape(o, config, envs[..n], batch[..n]);
      var w := WriteBatch(o, config, envs[..n], batch[..n]);
      DeliverOk(w, config, envs[n], Queued(batch[n]), batch[n].record.level, batch[n].record.endsLine, true, from);
    }
  }

  lemma NobodyWaits(o: Output, from: nat)
    requires OutputOk(o, from) && forall i :: from <= i < |o.lines| ==> !NeedsFlush(o.lines[i])
    ensures OutputOk(o, |o.lines|)
  {
  }

  lemma WriteQueuedOk(o: Output, config: Config, envs: seq<Env>, dropEnv: Env, batch: seq<Entry>, count: nat, after: nat)
    requires |envs| == |batch| && OutputOk(o, |o.lines|)
    ensures var r := WriteQueued(o, config, envs, dropEnv, batch, count, after); OutputOk(r, |r.lines|)
  {
    hide OutputOk, Deliver, WriteBatch;
    var from := |o.lines|;
    var w := WriteBatch(o, config, envs, batch);
    WriteBatchOk(o, config, envs, batch, from);
    WriteBatchShape(o, config, envs, batch);
    var r := WriteDropLine(w, config, dropEnv, count, after);
    if count > 0 {
      DeliverOk(w, config, dropEnv, DropLine(count, after), WARN, true, true, from);
      DeliverShape(w, config, dropEnv, DropLine(count, after), WARN, true, true);
    }
    assert r.lines[..|w.lines|] == w.lines;
    FlushOk(r, from);
    if !MustFlushFrom(w.lines, from) {
      forall i | from <= i < |r.lines| ensures !NeedsFlush(r.lines[i]) {
        if i < |w.lines| { assert r.lines[i] == w.lines[i]; }
      }
      NobodyWaits(r, from);
    }
  }

  /** Nothing to flush, and what the syncs cover, survive a change of the stream or of the flush position. */
  lemma ReopenedOk(o: Output, r: Output, from: nat)
    requires OutputOk(o, from) && r.lines == o.lines && r.synced == o.synced && o.flushed <= r.flushed <= |o.lines|
    requires r.isOpen ==> r.isInitialized
    requires o.isOpen || r.isOpen || r.flushed == o.flushed
    requires !r.isOpen && o.isOpen ==> r.flushed == |o.lines|
    ensures OutputOk(r, from)
  {
    assert forall i :: 0 <= i < |o.lines| ==> SyncedUpTo(o, i) == SyncedUpTo(r, i);
  }

  lemma PerformOk(s: State, op: Op, env: Env)
    requires OutputOk(s.output, |s.output.lines|)
    ensures var r := PerformOp(s, op, env).output; OutputOk(r, |r.lines|)
  {
    hide OutputOk;
    var o := s.output;
    FlushOk(o, |o.lines|);
    match op
    case InitializeLog(_) =>
      var ready := Open(if env.rotates then o.(file := env.nextFile) else o, env.opens);
      RollsOk(o, env);
      FlushOk(ready, |o.lines|);
    case ReconfigureLog(_) =>
      if o.isInitialized {
        RotatesOk(o, env);
        FlushOk(Rotate(o, env.nextFile, env.reopens), |o.lines|);
      }
    case OpenLog => RollsOk(o, env.(rotates := false));
    case _ =>
  }

  lemma RollsOk(o: Output, env: Env)
    requires OutputOk(o, |o.lines|)
    ensures OutputOk(Open(if env.rotates then o.(file := env.nextFile) else o, env.opens), |o.lines|)
  {
    ReopenedOk(o, Open(if env.rotates then o.(file := env.nextFile) else o, env.opens), |o.lines|);
  }

  lemma RotatesOk(o: Output, env: Env)
    requires OutputOk(o, |o.lines|) && o.isInitialized
    ensures OutputOk(Rotate(o, env.nextFile, env.reopens), |o.lines|)
  {
    ReopenedOk(o, Rotate(o, env.nextFile, env.reopens), |o.lines|);
  }

  /** What the waiting threads wait for. */
  ghost predicate Waits(s: State) {
    forall t ::
      match PlaceOf(s, t)
      case AwaitsEntry(entry) =>
        entry.mustFlush && 1 <= entry.sequence <= |s.queued| && s.queued[entry.sequence - 1] == entry
      case AwaitsUpTo(_, upTo) => upTo <= s.queue.lastQueued
      case Performs(op, upTo) => WaitsFirst(op) ==> upTo <= s.queue.lastWritten
      case _ => true
  }

  ghost predicate Delivered(s: State) {
    && Ordered(s)
    && OutputOk(s.output, |s.output.lines|)
    && Waits(s)
  }

  lemma OutputStaysOk(s: State, s': State, step: Step)
    requires OutputOk(s.output, |s.output.lines|) && Can(s, step) && s' == Next(s, step)
    ensures OutputOk(s'.output, |s'.output.lines|)
  {
    if step.WriteDirect? {
      var record, t := PlaceOf(s, step.t).record, step.t;
      var what := Direct(record, PlaceOf(s, t).dropsBefore);
      DeliverOk(s.output, s.config, step.env, what, record.level, record.endsLine, false, |s.output.lines|);
      DeliverShape(s.output, s.config, step.env, what, record.level, record.endsLine, false);
      DirectNeedsNoFlush(s.output, s'.output);
    } else if step.WorkerLogs? {
      var what := Direct(Record(WORKER, CallsOf(s, WORKER), step.level, step.endsLine), 0);
      DeliverOk(s.output, s.config, step.env, what, step.level, step.endsLine, false, |s.output.lines|);
      DeliverShape(s.output, s.config, step.env, what, step.level, step.endsLine, false);
      DirectNeedsNoFlush(s.output, s'.output);
    } else if step.WorkerWrites? {
      var at := s.worker.at;
      WriteQueuedOk(s.output, s.config, step.envs, step.dropEnv, at.batch, at.count, at.upTo);
    } else if step.Perform? {
      PerformOk(s, PlaceOf(s, step.t).op, step.env);
    } else if step.WorkerPerforms? {
      PerformOk(s, step.op, step.env);
    } else if step.WorkerWakes? {
      FlushOk(s.output, |s.output.lines|);
    } else {
      OutputUntouched(s, step);
    }
  }

  lemma OutputUntouched(s: State, step: Step)
    requires Can(s, step)
    requires !step.WriteDirect? && !step.WorkerLogs? && !step.WorkerWrites? && !step.Perform? && !step.WorkerPerforms?
    requires !step.WorkerWakes?
    ensures Next(s, step).output == s.output
  {
    hide Deliver, Enter, Admit, MakeDraft, Decide, DecideOnWorker, MakeDuty, WriteQueued, PerformOp;
  }

  lemma DirectNeedsNoFlush(o: Output, r: Output)
    requires OutputOk(r, |o.lines|) && |r.lines| == |o.lines| + 1 && r.lines[|o.lines|].what.Direct?
    ensures OutputOk(r, |r.lines|)
  {
  }

  lemma WaitsKept(s: State, s': State, step: Step)
    requires Ordered(s) && Waits(s) && Can(s, step) && s' == Next(s, step)
    ensures Waits(s')
  {
    hide CallerNext, WorkerNext, ControlNext, CallerCan, ControlCan, WorkerCan;
    if CallerCan(s, step) {
      CallerMoves(s, step);
      CallerWaits(s, s', step);
    } else if ControlCan(s, step) {
      ControlMoves(s, step);
      ControlWaits(s, s', step);
    } else {
      WorkerMoves(s, step);
      assert forall t :: PlaceOf(s', t) == PlaceOf(s, t);
      WorkerAdvances(s, s', step);
    }
  }

  lemma CallerQueues(s: State, s': State, step: Step)
    requires CallerCan(s, step) && s' == CallerNext(s, step)
    ensures s.queued <= s'.queued && s'.queue.lastQueued >= s.queue.lastQueued && s'.queue.lastWritten == s.queue.lastWritten
    ensures IsSection(step) && PlaceOf(s', step.t).AwaitsEntry? ==>
              var entry := PlaceOf(s', step.t).entry;
              entry.mustFlush && entry.sequence == s.queue.lastQueued + 1 && s'.queued == s.queued + [entry]
  {
    hide CallerNext, CallerCan;
    if IsSection(step) {
      SectionAdmits(s, step);
      hide SectionOf;
    } else if step.WriteDirect? {
      DirectDelivers(s, step);
      hide Deliver;
    } else {
      OthersAreQuiet(s, step);
    }
  }

  lemma CallerPlace(s: State, s': State, step: Step)
    requires CallerCan(s, step) && s' == CallerNext(s, step)
    ensures !PlaceOf(s', step.t).AwaitsUpTo? && !PlaceOf(s', step.t).Performs?
    ensures PlaceOf(s', step.t).AwaitsEntry? ==> IsSection(step)
  {
    hide Deliver, MakeDraft, Enter, Admit;
  }

  lemma CallerWaits(s: State, s': State, step: Step)
    requires Counters(s) && CallerCan(s, step) && s' == CallerNext(s, step)
    ensures s.queued <= s'.queued && s'.queue.lastQueued >= s.queue.lastQueued && s'.queue.lastWritten == s.queue.lastWritten
    ensures HasThread(step)
    ensures var p := PlaceOf(s', step.t);
            && !p.AwaitsUpTo? && !p.Performs?
            && (p.AwaitsEntry? ==> p.entry.mustFlush && p.entry.sequence == |s.queued| + 1 && s'.queued == s.queued + [p.entry])
  {
    hide CallerNext;
    CallerHoldsNothing(s, step);
    hide CallerCan, WrittenEntries;
    CallerQueues(s, s', step);
    CallerPlace(s, s', step);
  }

  lemma ControlWaits(s: State, s': State, step: Step)
    requires ControlCan(s, step) && s' == ControlNext(s, step)
    ensures s'.queued == s.queued && s'.queue.lastQueued == s.queue.lastQueued && s'.queue.lastWritten == s.queue.lastWritten
    ensures var p := PlaceOf(s', step.t);
            && !p.AwaitsEntry?
            && (p.AwaitsUpTo? ==> p.upTo == s.queue.lastQueued)
            && (p.Performs? && WaitsFirst(p.op) ==> p.upTo <= s.queue.lastWritten)
  {
    match step
    case Perform(t, env) => PerformKeepsLines(s, PlaceOf(s, t).op, env);
    case _ =>
  }

  lemma WorkerAdvances(s: State, s': State, step: Step)
    requires Counters(s) && WorkerCan(s, step) && s' == WorkerNext(s, step)
    ensures s.queued <= s'.queued && s'.queue.lastQueued >= s.queue.lastQueued && s'.queue.lastWritten >= s.queue.lastWritten
  {
    match step
    case WorkerPerforms(op, env) => PerformKeepsLines(s, op, env);
    case _ =>
  }

  lemma StepDelivers(s: State, step: Step)
    requires Delivered(s) && Can(s, step)
    ensures Delivered(Next(s, step))
  {
    hide CallerNext, ControlNext, WorkerNext, CallerCan, ControlCan, WorkerCan, OutputOk;
    StepKeepsOrder(s, step);
    OutputStaysOk(s, Next(s, step), step);
    WaitsKept(s, Next(s, step), step);
  }

  /** The invariant of every run, from any configuration. */
  lemma {:induction false} RunDelivers(s: State, steps: seq<Step>)
    requires Delivered(s) && IsRun(s, steps)
    ensures Delivered(After(s, steps))
    decreases |steps|
  {
    if steps != [] {
      StepDelivers(s, steps[0]);
      RunDelivers(Next(s, steps[0]), steps[1..]);
    }
  }

  lemma InitialDelivers(config: Config)
    ensures Delivered(Initial(config))
  {
  }

  // ---- Where an entry's line stands -------------------------------------------

  lemma {:induction false} WrittenPrefix(lines: seq<Line>, i: nat)
    requires i <= |lines|
    ensures WrittenEntries(lines[..i]) <= WrittenEntries(lines)
    decreases |lines|
  {
    if i < |lines| {
      var n := |lines| - 1;
      WrittenPrefix(lines[..n], i);
      assert lines[..n][..i] == lines[..i];
    } else {
      assert lines[..i] == lines;
    }
  }

  /** A queued entry's line stands after exactly the entries with a smaller sequence number. */
  lemma LineRank(s: State, i: nat)
    requires Counters(s) && i < |s.output.lines| && s.output.lines[i].what.Queued?
    ensures |WrittenEntries(s.output.lines[..i])| + 1 == s.output.lines[i].what.entry.sequence <= Done(s)
    ensures s.queued[s.output.lines[i].what.entry.sequence - 1] == s.output.lines[i].what.entry
  {
    var lines := s.output.lines;
    WrittenPrefix(lines, i + 1);
    WrittenSnoc(lines[..i], lines[..i + 1]);
    assert lines[..i + 1][..i] == lines[..i];
    var k := |WrittenEntries(lines[..i])|;
    assert WrittenEntries(lines[..i + 1])[k] == WrittenEntries(lines)[k];
  }

  lemma {:induction false} LineOf(lines: seq<Line>, k: nat) returns (i: nat)
    requires k < |WrittenEntries(lines)|
    ensures i < |lines| && lines[i].what == Queued(WrittenEntries(lines)[k])
    decreases |lines|
  {
    var n := |lines| - 1;
    if k < |WrittenEntries(lines[..n])| {
      i := LineOf(lines[..n], k);
    } else {
      i := n;
    }
  }

  /** Queued entries reach the output in sequence order, each at most once. */
  lemma QueuedLinesInSequence(s: State, i: nat, j: nat)
    requires Counters(s) && i < j < |s.output.lines| && s.output.lines[i].what.Queued? && s.output.lines[j].what.Queued?
    ensures s.output.lines[i].what.entry.sequence < s.output.lines[j].what.entry.sequence
  {
    var lines := s.output.lines;
    LineRank(s, i);
    LineRank(s, j);
    WrittenSnoc(lines[..i], lines[..i + 1]);
    assert lines[..i + 1][..i] == lines[..i];
    WrittenPrefix(lines[..j], i + 1);
    assert lines[..j][..i + 1] == lines[..i + 1];
  }

  /** When the call of an entry at or above WaitAtLevel returns, the output has seen the entry, after every entry with a
      smaller sequence number; if it accepted the entry, the line and every accepted line before it are flushed. */
  lemma WaitingCallReturns(s: State, t: nat) returns (i: nat)
    requires Delivered(s) && CallerCan(s, SeeWritten(t))
    ensures i < |s.output.lines| && s.output.lines[i].what == Queued(PlaceOf(s, t).entry)
    ensures s.output.lines[i].accepted ==> i < s.output.flushed
    ensures PlaceOf(s, t).entry.sequence <= |s.queued|
    ensures forall k :: 0 <= k < PlaceOf(s, t).entry.sequence - 1 ==> HasLineBefore(s, k, i)
    ensures forall j | 0 <= j < |s.output.lines| && s.output.lines[j].what.Queued? ::
              s.output.lines[j].what.entry.sequence < PlaceOf(s, t).entry.sequence ==> j < i
  {
    hide WrittenEntries, LinesInOrder, LinesBefore, QueuedInOrder, AllBelow;
    var entry := PlaceOf(s, t).entry;
    WaitedForIsWritten(s, t);
    i := LineOf(s.output.lines, entry.sequence - 1);
    forall j | 0 <= j < |s.output.lines| && s.output.lines[j].what.Queued?
               && s.output.lines[j].what.entry.sequence < entry.sequence
      ensures j < i
    {
      if i < j { QueuedLinesInSequence(s, i, j); }
    }
    forall k | 0 <= k < entry.sequence - 1 ensures HasLineBefore(s, k, i) {
      var j := LineOf(s.output.lines, k);
      assert s.output.lines[j].what.entry.sequence == k + 1;
    }
  }

  /** The k-th entry queued has a line before the i-th line. */
  predicate HasLineBefore(s: State, k: nat, i: nat)
    requires k < |s.queued| && i <= |s.output.lines|
  {
    exists j :: 0 <= j < i && s.output.lines[j].what == Queued(s.queued[k])
  }

  lemma WaitedForIsWritten(s: State, t: nat)
    requires Delivered(s) && CallerCan(s, SeeWritten(t))
    ensures var entry := PlaceOf(s, t).entry;
      && 0 < entry.sequence <= |WrittenEntries(s.output.lines)| && WrittenEntries(s.output.lines)[entry.sequence - 1] == entry
      && entry.mustFlush && entry.sequence <= |s.queued|
      && forall k :: 0 <= k < entry.sequence ==> s.queued[k] == WrittenEntries(s.output.lines)[k]
    ensures forall k :: 0 <= k < PlaceOf(s, t).entry.sequence ==> s.queued[k].sequence == k + 1
  {
  }

  /** Flush() leaves flushed every line written so far, and when Flush(), Close(), Reconfigure() or Finalize() act, every
      entry queued before they were called has reached the output. */
  lemma OperationsComeAfter(s: State, t: nat, env: Env)
    requires Delivered(s) && ControlCan(s, Perform(t, env)) && WaitsFirst(PlaceOf(s, t).op)
    ensures forall k :: 0 <= k < PlaceOf(s, t).upTo ==>
              exists i :: 0 <= i < |s.output.lines| && s.output.lines[i].what == Queued(s.queued[k])
    ensures var o := ControlNext(s, Perform(t, env)).output;
            PlaceOf(s, t).op.FlushLog? || PlaceOf(s, t).op.CloseLog? ==>
              o.lines == s.output.lines && forall i :: o.flushed <= i < |o.lines| ==> !o.lines[i].accepted
  {
    FlushOk(s.output, |s.output.lines|);
    PerformKeepsLines(s, PlaceOf(s, t).op, env);
    forall k | 0 <= k < PlaceOf(s, t).upTo
      ensures exists i :: 0 <= i < |s.output.lines| && s.output.lines[i].what == Queued(s.queued[k])
    {
      var i := LineOf(s.output.lines, k);
    }
  }

  // ---- How far a sync reaches ---------------------------------------------------

  /** The last line that the output accepted into its file. */
  ghost predicate IsLastAccepted(o: Output, i: nat) {
    i < |o.lines| && o.lines[i].accepted
    && forall j :: i < j < |o.lines| && o.lines[j].accepted ==> o.lines[j].file != o.lines[i].file
  }

  ghost predicate AllOnDisk(o: Output) {
    forall i :: 0 <= i < |o.lines| && o.lines[i].accepted ==> o.OnDisk(i)
  }

  lemma {:induction false} LastInFile(o: Output, i: nat) returns (k: nat)
    requires i < |o.lines| && o.lines[i].accepted
    ensures i <= k && IsLastAccepted(o, k) && o.lines[k].file == o.lines[i].file
    decreases |o.lines| - i
  {
    if IsLastAccepted(o, i) {
      k := i;
    } else {
      var j :| i < j < |o.lines| && o.lines[j].accepted && o.lines[j].file == o.lines[i].file;
      k := LastInFile(o, j);
    }
  }

  /** At any time, every accepted line is on the disk exactly if in each file the last accepted line was synced. */
  lemma OnDiskExactly(o: Output, from: nat)
    requires OutputOk(o, from)
    ensures AllOnDisk(o) <==> forall i: nat :: IsLastAccepted(o, i) ==> o.lines[i].syncs
  {
    if AllOnDisk(o) {
      forall i: nat | IsLastAccepted(o, i) ensures o.lines[i].syncs {
        assert o.OnDisk(i);
        assert SyncsAt(o, o.lines[i].file, o.synced[o.lines[i].file]);
      }
    }
    if forall i: nat :: IsLastAccepted(o, i) ==> o.lines[i].syncs {
      forall i | 0 <= i < |o.lines| && o.lines[i].accepted ensures o.OnDisk(i) {
        var k := LastInFile(o, i);
        assert SyncedUpTo(o, k);
      }
    }
  }

  /** After a run whose last accepted line is at or above SyncToDiskAtLevel: its file is on the disk, and so is every
      accepted line exactly if each other file's last accepted line was at that level, too. */
  lemma SyncReaches(config: Config, steps: seq<Step>, i: nat)
    requires IsRun(Initial(config), steps)
    requires var lines := After(Initial(config), steps).output.lines;
             i < |lines| && lines[i].accepted && lines[i].syncs && forall j :: i < j < |lines| ==> !lines[j].accepted
    ensures var o := After(Initial(config), steps).output;
            && (forall j :: 0 <= j <= i && o.lines[j].file == o.lines[i].file ==> o.OnDisk(j))
            && (AllOnDisk(o) <==> forall k: nat :: IsLastAccepted(o, k) && o.lines[k].file != o.lines[i].file ==> o.lines[k].syncs)
  {
    InitialDelivers(config);
    RunDelivers(Initial(config), steps);
    var o := After(Initial(config), steps).output;
    OnDiskExactly(o, |o.lines|);
    assert SyncedUpTo(o, i);
    assert forall k: nat :: IsLastAccepted(o, k) && o.lines[k].file == o.lines[i].file ==> k == i;
  }

  const SYNCING := DEFAULT.(flushMode := Manual, flushAtLevel := OFF, syncAtLevel := 5)
  const STARTED := Opening(1, InitializeLog(SYNCING)) + [DecideWorker(1)]

  /** Initialize(), a call that writes an entry, and another one, synced, that tries to rotate the file. */
  function Rotating(nextFile: nat): seq<Step> {
    STARTED + DirectCall(1, 4, true, OPENS) + DirectCall(1, 5, true, Rotates(nextFile))
  }

  function Rotates(nextFile: nat): Env {
    Env(false, true, nextFile, true, false)
  }

  lemma RotatingRun(nextFile: nat) returns (o: Output)
    ensures IsRun(Initial(DEFAULT), Rotating(nextFile)) && o == After(Initial(DEFAULT), Rotating(nextFile)).output
    ensures |o.lines| == 2 && o.lines[0].accepted && o.lines[1].accepted && o.lines[1].syncs
    ensures o.lines[0].file == 0 && o.lines[1].file == nextFile && o.synced == map[nextFile := 2]
  {
    hide CallerCan, CallerNext, ControlCan, ControlNext, WorkerCan, WorkerNext, Reaches, IsRun, After;
    var s0 := Initial(DEFAULT);
    var s1 := OpensAndLocks(s0, 1, InitializeLog(SYNCING));
    var s2 := NeedsNoWorker(s1, 1);
    RunJoins(s0, Opening(1, InitializeLog(SYNCING)), s1, [DecideWorker(1)], s2);
    var s3 := WritesOne(s2, 1, 4, true, OPENS);
    RunJoins(s0, STARTED, s2, DirectCall(1, 4, true, OPENS), s3);
    var s4 := WritesOne(s3, 1, 5, true, Rotates(nextFile));
    RunJoins(s0, STARTED + DirectCall(1, 4, true, OPENS), s3, DirectCall(1, 5, true, Rotates(nextFile)), s4);
    o := s4.output;
    assert Reaches(s0, Rotating(nextFile), s4);
    Reached(s0, Rotating(nextFile), s4);
  }

  lemma NeedsNoWorker(s: State, t: nat) returns (s': State)
    requires PlaceOf(s, t) == Decides(false) && s.worker.NoThread? && !WantsWorker(s.config)
    ensures Reaches(s, [DecideWorker(t)], s')
    ensures s' == s.(updater := Free, places := s'.places) && PlaceOf(s', t) == Idle && OthersStay(s, s', t)
  {
    hide Reaches, IsRun, After, CallerCan, CallerNext, WorkerCan, WorkerNext;
    ControlGoes(s, DecideWorker(t));
    One(s, DecideWorker(t));
    s' := ControlNext(s, DecideWorker(t));
  }

  /** If the file was renamed, the first entry never reaches the disk; if that failed, the sync covers both. */
  lemma SyncLeavesBehind(nextFile: nat)
    ensures IsRun(Initial(DEFAULT), Rotating(nextFile))
    ensures var o := After(Initial(DEFAULT), Rotating(nextFile)).output;
      && |o.lines| == 2 && o.lines[0].accepted && o.lines[1].accepted && o.lines[1].syncs && o.OnDisk(1)
      && (o.OnDisk(0) <==> nextFile == 0)
  {
    var o := RotatingRun(nextFile);
  }
}
