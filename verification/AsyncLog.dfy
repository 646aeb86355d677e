/** The queue and the output of an asynchronous logger updated in place, and a round of the worker over both. A method
    that names a function does what the step system's section does; the rest of its contract says what that means. */
module AsyncLog {
  import opened AsyncQueue
  import opened AsyncOutput
  import opened AsyncRun
  import opened AsyncOrder
  import opened AsyncAdmission
  import opened AsyncDelivery
  import opened AsyncFlushing

  /** The fields under the queue's lock, which every method holds. 'queued' has every entry queued so far, 'inFlight' the
      batch that the worker took and hasn't marked as written. */
  class TextLogQueue {
    var entries: seq<Entry>
    var lastQueued: nat
    var lastWritten: nat
    var dropped: nat
    var isAsyncActive: bool
    var isAsync: bool
    var isStopping: bool
    var isStoppingItself: bool
    var interval: int
    ghost var queued: seq<Entry>
    ghost var inFlight: seq<Entry>

    function State(): Queue
      reads this
    {
      Queue(entries, lastQueued, lastWritten, dropped, isAsyncActive, isAsync, isStopping, isStoppingItself, interval)
    }

    ghost predicate Valid()
      reads this
    {
      QueueOk(State(), queued, inFlight)
    }

    /** Some entry hasn't been written. */
    ghost predicate HasUnwritten()
      reads this
    {
      inFlight + entries != []
    }

    constructor ()
      ensures Valid() && State() == EMPTY_QUEUE && queued == [] && inFlight == []
    {
      entries, lastQueued, lastWritten, dropped, interval := [], 0, 0, 0, 0;
      isAsyncActive, isAsync, isStopping, isStoppingItself := false, false, false, false;
      queued, inFlight := [], [];
    }

    /** Callers go on queuing until everything queued is written, even if async is switched off. */
    method SetAsyncActive(isActive: bool)
      requires Valid()
      modifies `isAsyncActive, `isAsync
      ensures Valid() && isAsyncActive == isActive
      ensures isAsync <==> isActive || HasUnwritten()
      ensures State() == SetActive(old(State()), isActive)
    {
      isAsyncActive := isActive;
      if isActive || lastWritten >= lastQueued {
        isAsync := isActive;
      }
      UnwrittenMeans(State(), queued, inFlight);
    }

    /** QueueRecord() up to its first wait or its return. The entry gets the next sequence number; in a full queue it is
        counted as dropped if the configuration and its level allow that, and waits if not; and the caller may write it
        itself only if nothing is unwritten. */
    method QueueRecord(record: Record, config: Config) returns (admission: Admission)
      requires Valid()
      modifies `entries, `lastQueued, `dropped, `queued
      ensures Valid()
      ensures queued == old(queued) + (if admission.Accepted? then [admission.entry] else [])
      ensures dropped == old(dropped) + if admission.Dropped? then 1 else 0
      ensures match admission
              case Accepted(entry) =>
                && isAsyncActive && !IsFull(old(State()), config) && entry in entries
                && entry == Entry(old(|queued|) + 1, record, record.level >= config.waitAtLevel)
              case Dropped => isAsyncActive && IsFull(State(), config) && config.dropNewest && record.level < config.waitAtLevel
              case NoRoom => isAsyncActive && IsFull(State(), config) && !(config.dropNewest && record.level < config.waitAtLevel)
              case Switched => !isAsyncActive && !HasUnwritten()
              case Drains => !isAsyncActive && HasUnwritten()
      ensures (admission, State()) == Enter(old(State()), MakeDraft(record, config))
    {
      var draft := MakeDraft(record, config);
      if draft.mayDrop && isAsyncActive && |entries| >= draft.capacity {
        dropped := dropped + 1;
        return Dropped;
      }
      if isAsyncActive && |entries| >= draft.capacity {
        return NoRoom;
      }
      admission := QueueAfterWait(draft);
    }

    /** QueueRecord() once the wait for room is over. */
    method QueueAfterWait(draft: Draft) returns (admission: Admission)
      requires Valid()
      modifies `entries, `lastQueued, `queued
      ensures Valid() && (admission.Accepted? || admission.Switched? || admission.Drains?)
      ensures queued == old(queued) + (if admission.Accepted? then [Entry(old(|queued|) + 1, draft.record, draft.mustFlush)] else [])
      ensures isAsyncActive == admission.Accepted?
      ensures admission.Accepted? ==> admission.entry in entries
      ensures !admission.Accepted? ==> admission.Drains? == HasUnwritten()
      ensures (admission, State()) == Admit(old(State()), draft)
    {
      if !isAsyncActive {
        UnwrittenMeans(State(), queued, inFlight);
        return if lastWritten >= lastQueued then Switched else Drains;
      }
      var entry := Entry(lastQueued + 1, draft.record, draft.mustFlush);
      QueueOkPushed(State(), queued, inFlight, draft);
      entries := entries + [entry];
      lastQueued := entry.sequence;
      queued := queued + [entry];
      return Accepted(entry);
    }

    /** The worker's swap of the queue with an empty one: it takes everything unwritten. */
    method TakeEntries() returns (batch: seq<Entry>, droppedCount: nat, stopFlag: bool)
      requires Valid() && inFlight == []
      modifies `entries, `dropped, `inFlight
      ensures Valid() && inFlight == batch == old(entries) == queued[lastWritten..] && entries == []
      ensures droppedCount == old(dropped) && dropped == 0 && stopFlag == isStopping
    {
      stopFlag := isStopping;
      batch, entries := entries, [];
      droppedCount, dropped := dropped, 0;
      inFlight := batch;
    }

    /** The end of WriteQueuedEntries(): lets go of everybody who waits for an entry of the batch, and sends callers
        straight to the output once async is off and nothing is left. */
    method FinishBatch(batch: seq<Entry>)
      requires Valid() && batch == inFlight
      modifies `lastWritten, `isAsync, `inFlight
      ensures Valid() && inFlight == []
      ensures lastWritten == old(lastWritten) + |batch| && forall entry :: entry in batch ==> entry.sequence <= lastWritten
      ensures isAsync <==> isAsyncActive || entries != []
      ensures State() == MarkWritten(old(State()), batch)
    {
      QueueOkMarked(State(), queued, inFlight);
      if batch != [] && batch[|batch| - 1].sequence > lastWritten {
        lastWritten := batch[|batch| - 1].sequence;
      }
      if !isAsyncActive && lastWritten >= lastQueued {
        isAsync := false;
      }
      inFlight := [];
      UnwrittenMeans(State(), queued, inFlight);
    }

    /** The deciding section of UpdateWorker(): keeps a wanted worker that isn't told to stop, and starts one only where
        there is none. No decision touches an entry, and a stop turns async off. */
    method UpdateWorker(isJoinable: bool, duty: Duty) returns (decision: Decision)
      requires Valid()
      modifies `interval, `isAsyncActive, `isAsync, `isStopping, `isStoppingItself
      ensures Valid()
      ensures decision.Kept? || decision.Stops? <==> isJoinable
      ensures decision.Kept? || decision.Starts? ==> duty.IsWanted() && !isStopping && interval == duty.interval
      ensures decision.Kept? ==> isAsyncActive == duty.isAsync
      ensures decision.Stops? ==> isStopping && !isStoppingItself && !isAsyncActive && (isAsync <==> HasUnwritten())
      ensures decision.Stops? ==> old(isStopping) || !duty.IsWanted()
      ensures decision.NothingToDo? ==> State() == old(State()) && !duty.IsWanted()
      ensures (decision, State()) == Decide(old(State()), isJoinable, duty)
    {
      if isJoinable && !isStopping && duty.IsWanted() {
        interval := duty.interval;
        SetAsyncActive(duty.isAsync);
        return Kept;
      }
      if isJoinable {
        isStopping, isStoppingItself := true, false;
        SetAsyncActive(false);
        return Stops;
      } else if !duty.IsWanted() {
        return NothingToDo;
      } else {
        isStopping, interval := false, duty.interval;
        return Starts;
      }
    }

    /** The same on the worker itself: it can't take back another thread's stop, and async is never turned on while a stop
        stands. */
    method UpdateWorkerFromWorker(duty: Duty)
      requires Valid()
      modifies `interval, `isAsyncActive, `isAsync, `isStopping, `isStoppingItself
      ensures Valid()
      ensures old(isStopping) && !old(isStoppingItself) ==> State() == old(State())
      ensures isStopping <==> !duty.IsWanted() || (old(isStopping) && !old(isStoppingItself))
      ensures !isStopping ==> isAsyncActive == duty.isAsync && interval == duty.interval
      ensures isStopping && !old(isStopping) ==> isStoppingItself && !isAsyncActive && (isAsync <==> HasUnwritten())
      ensures State() == DecideOnWorker(old(State()), duty)
    {
      if duty.IsWanted() {
        if isStopping && isStoppingItself {
          isStopping := false;
        }
        if !isStopping {
          interval := duty.interval;
          SetAsyncActive(duty.isAsync);
        }
      } else if !isStopping {
        isStopping, isStoppingItself := true, true;
        SetAsyncActive(false);
      }
    }
  }

  lemma UnwrittenMeans(q: Queue, queued: seq<Entry>, inFlight: seq<Entry>)
    requires q.lastWritten <= q.lastQueued == |queued| && inFlight + q.entries == queued[q.lastWritten..]
    ensures inFlight + q.entries != [] <==> q.lastWritten < q.lastQueued
  {
    assert |inFlight + q.entries| == q.lastQueued - q.lastWritten;
  }

  lemma QueueOkPushed(q: Queue, queued: seq<Entry>, inFlight: seq<Entry>, draft: Draft)
    requires QueueOk(q, queued, inFlight) && q.isAsyncActive
    ensures QueueOk(Push(q, draft).1, queued + [Push(q, draft).0], inFlight)
  {
    var entry := Push(q, draft).0;
    assert (queued + [entry])[q.lastWritten..] == queued[q.lastWritten..] + [entry];
    assert inFlight + (q.entries + [entry]) == (inFlight + q.entries) + [entry];
  }

  /** The output in place. Every method runs with the output's lock held. */
  class TextLogOutput {
    var lines: seq<Line>
    var flushed: nat
    var file: nat
    var synced: map<nat, nat>
    var isOpen: bool
    var isInitialized: bool

    function State(): Output
      reads this
    {
      Output(lines, flushed, file, synced, isOpen, isInitialized)
    }

    /** A closed output holds no accepted line back, each sync reached the whole file up to its line, and of the lines
        before 'from' none that a caller waits for is unflushed. */
    ghost predicate Ok(from: nat)
      reads this
    {
      OutputOk(State(), from)
    }

    ghost predicate Valid()
      reads this
    {
      Ok(|lines|)
    }

    ghost predicate AllFlushed()
      reads this
    {
      forall i :: flushed <= i < |lines| ==> !lines[i].accepted
    }

    constructor ()
      ensures Valid() && State() == EMPTY_OUTPUT
    {
      lines, flushed, file, synced, isOpen, isInitialized := [], 0, 0, map[], false, false;
    }

    /** Nothing accepted is left in the buffer afterwards. */
    method FlushUnlocked(ghost from: nat) returns (isFlushed: bool)
      requires Ok(from)
      modifies `flushed
      ensures Valid() && AllFlushed() && isFlushed == isOpen
      ensures State() == Flush(old(State()))
    {
      FlushOk(State(), from);
      if isOpen {
        flushed := |lines|;
      }
      return isOpen;
    }

    method CloseFileUnlocked(ghost from: nat)
      requires Ok(from)
      modifies `flushed, `isOpen
      ensures Valid() && AllFlushed() && !isOpen
      ensures State() == Close(old(State()))
    {
      FlushOk(State(), from);
      if isOpen {
        flushed := |lines|;
      }
      isOpen := false;
    }

    /** Close() and Finalize(): the logger isn't initialized any more, either. */
    method CloseUnlocked(ghost from: nat)
      requires Ok(from)
      modifies `flushed, `isOpen, `isInitialized
      ensures Valid() && AllFlushed() && !isOpen && !isInitialized
      ensures State() == Shut(old(State()))
    {
      CloseFileUnlocked(from);
      isInitialized := false;
      ReopenedOk(State().(isInitialized := old(isInitialized)), State(), |lines|);
    }

    /** An open output has every line of its file on the disk afterwards, and nothing in its buffer. */
    method SyncToDiskUnlocked()
      modifies `flushed, `synced
      ensures isOpen ==> flushed == |lines| && forall i :: 0 <= i < |lines| && lines[i].file == file ==> State().OnDisk(i)
      ensures State() == Sync(old(State()))
    {
      if isOpen {
        flushed := |lines|;
        synced := synced[file := |lines|];
      }
    }

    /** The end of WriteLineUnlocked(), with the line just appended: it keeps what the flush and sync levels promise. */
    method MaybeFlushUnlocked(config: Config, level: nat, endsLine: bool, inBatch: bool, ghost from: nat)
      requires isOpen && |lines| > from && lines[|lines| - 1] == Line(lines[|lines| - 1].what, true, level >= config.syncAtLevel, file)
      requires OutputOk(State().(lines := lines[..|lines| - 1]), from)
      modifies `flushed, `synced
      ensures Ok(from)
      ensures level >= config.syncAtLevel ==> forall i :: 0 <= i < |lines| && lines[i].file == file ==> State().OnDisk(i)
      ensures flushed == if LevelFlushes(config, level) || (ModeFlushes(config, endsLine) && !inBatch) then |lines| else old(flushed)
      ensures level < config.syncAtLevel ==> synced == old(synced)
      ensures State() == MaybeFlush(old(State()), config, level, endsLine, inBatch)
    {
      ghost var before, line := State().(lines := lines[..|lines| - 1]), lines[|lines| - 1];
      assert lines == before.lines + [line];
      AppendOk(before, line, from);
      if level >= config.syncAtLevel {
        SyncToDiskUnlocked();
      } else if (FlushesEachEntry(config, endsLine) && !inBatch) || level >= config.flushAtLevel {
        var _ := FlushUnlocked(from);
        StaysOk(State(), from);
      }
    }

    method OpenUnlocked(opens: bool, ghost from: nat)
      requires Ok(from)
      modifies `isOpen, `isInitialized
      ensures Ok(from) && isOpen == (old(isOpen) || opens)
      ensures State() == Open(old(State()), opens)
    {
      if isOpen || opens {
        ReopenedOk(State(), Open(State(), opens), from);
        isOpen, isInitialized := true, true;
      }
    }

    /** False if nothing initialized the logger, unless it opens its file for each entry, or if the file can't be opened. */
    method EnsureReadyUnlocked(config: Config, env: Env, ghost from: nat) returns (isReady: bool)
      requires Ok(from)
      modifies `isOpen, `isInitialized
      ensures Ok(from) && isReady == isOpen == (old(isOpen) || ((config.autoClose || old(isInitialized)) && env.opens))
      ensures State() == EnsureReady(old(State()), config, env)
    {
      if isOpen {
        return true;
      }
      if config.autoClose || isInitialized {
        OpenUnlocked(env.opens, from);
      }
      return isOpen;
    }

    method PrepareWriteUnlocked(env: Env, ghost from: nat)
      requires Ok(from) && isOpen
      modifies `flushed, `isOpen, `file
      ensures Ok(from) && (env.rotates ==> AllFlushed() && file == env.nextFile && isOpen == env.reopens)
      ensures State() == if env.rotates then Rotate(old(State()), env.nextFile, env.reopens) else old(State())
    {
      if env.rotates {
        CloseFileUnlocked(from);
        StaysOk(State(), from);
        ReopenedOk(State(), State().(file := env.nextFile, isOpen := env.reopens), from);
        file, isOpen := env.nextFile, env.reopens;
      }
    }

    /** Everything before the write: an entry that is filtered out doesn't rotate the file. */
    method GetReady(config: Config, env: Env, what: What, ghost from: nat) returns (accepted: bool)
      requires Ok(from)
      modifies `flushed, `isOpen, `isInitialized, `file
      ensures Ok(from) && accepted == (isOpen && !IsFiltered(what, env))
      ensures State() == Prepare(old(State()), config, env, what)
    {
      hide OutputOk, EnsureReady, Rotate;
      accepted := EnsureReadyUnlocked(config, env, from);
      if accepted && !IsFiltered(what, env) {
        PrepareWriteUnlocked(env, from);
      }
      accepted := isOpen && !IsFiltered(what, env);
    }

    /** One entry: appends its line and, if it is accepted, meets the flush and sync levels before the lock is released. */
    method WriteEntry(config: Config, env: Env, what: What, level: nat, endsLine: bool, inBatch: bool, ghost from: nat)
        returns (accepted: bool)
      requires Ok(from) && from <= |lines|
      modifies this
      ensures Ok(from)
      ensures |lines| == old(|lines|) + 1 && lines[..old(|lines|)] == old(lines)
      ensures lines[old(|lines|)].what == what && lines[old(|lines|)].accepted == accepted
      ensures accepted && level >= config.syncAtLevel ==>
                forall i :: 0 <= i < |lines| && lines[i].file == lines[old(|lines|)].file ==> State().OnDisk(i)
      ensures accepted && (level >= config.syncAtLevel || level >= config.flushAtLevel) ==> flushed == |lines|
      ensures State() == Deliver(old(State()), config, env, what, level, endsLine, inBatch)
    {
      hide OutputOk, Prepare, MaybeFlush;
      ghost var before := State();
      accepted := GetReady(config, env, what, from);
      PrepareKeepsLines(before, config, env, what);
      ghost var prepared := State();
      lines := lines + [Line(what, accepted, level >= config.syncAtLevel, file)];
      assert prepared == State().(lines := lines[..|lines| - 1]);
      if accepted {
        MaybeFlushUnlocked(config, level, endsLine, inBatch, from);
      } else {
        AppendOk(prepared, lines[|lines| - 1], from);
      }
      if config.autoClose {
        CloseFileUnlocked(from);
        StaysOk(State(), from);
      }
      DeliverMeets(before, config, env, what, level, endsLine, inBatch);
    }

    method WriteBatchEntries(config: Config, envs: seq<Env>, batch: seq<Entry>) returns (mustFlush: bool)
      requires Valid() && |envs| == |batch|
      modifies this
      ensures Ok(old(|lines|)) && WrittenEntries(lines) == old(WrittenEntries(lines)) + batch
      ensures mustFlush == MustFlushFrom(lines, old(|lines|))
      ensures State() == WriteBatch(old(State()), config, envs, batch)
    {
      hide OutputOk, Deliver, WrittenEntries;
      ghost var from, written := |lines|, WrittenEntries(lines);
      mustFlush := false;
      assert written + batch[..0] == written;
      for i := 0 to |batch|
        invariant State() == WriteBatch(old(State()), config, envs[..i], batch[..i])
        invariant |lines| >= from && Ok(from) && WrittenEntries(lines) == written + batch[..i]
        invariant mustFlush == MustFlushFrom(lines, from)
      {
        ghost var before := lines;
        var isWritten := WriteEntry(config, envs[i], Queued(batch[i]), batch[i].record.level, batch[i].record.endsLine, true, from);
        MustFlushSnoc(before, lines, from);
        WriteBatchSnoc(old(State()), config, envs, batch, i);
        WrittenSnoc(before, lines);
        assert written + batch[..i] + [batch[i]] == written + batch[..i + 1];
        mustFlush := mustFlush || (isWritten && batch[i].mustFlush);
      }
      assert batch[..|batch|] == batch && envs[..|envs|] == envs;
    }

    /** WriteQueuedEntries() up to the release of the lock: every entry of the batch has its line, in order, then the drops
        have theirs, and no accepted line that somebody waits for is unflushed. */
    method WriteQueuedEntries(config: Config, envs: seq<Env>, dropEnv: Env, batch: seq<Entry>, droppedCount: nat, after: nat)
      requires Valid() && |envs| == |batch|
      modifies this
      ensures Valid() && WrittenEntries(lines) == old(WrittenEntries(lines)) + batch
      ensures |lines| == old(|lines|) + |batch| + if droppedCount > 0 then 1 else 0
      ensures droppedCount > 0 ==> lines[|lines| - 1].what == DropLine(droppedCount, after)
      ensures IsBatchFlushed(old(State()), State(), config, envs, dropEnv, batch, droppedCount)
      ensures State() == WriteQueued(old(State()), config, envs, dropEnv, batch, droppedCount, after)
    {
      hide OutputOk, Deliver, WrittenEntries, WriteBatch;
      ghost var before := State();
      WrittenAfterWrite(before, config, envs, dropEnv, batch, droppedCount, after);
      WriteQueuedShape(before, config, envs, dropEnv, batch, droppedCount, after);
      WriteQueuedOk(before, config, envs, dropEnv, batch, droppedCount, after);
      QueuedAreFlushed(before, config, envs, dropEnv, batch, droppedCount, after);
      hide IsBatchFlushed;
      var mustFlush := WriteBatchEntries(config, envs, batch);
      WriteBatchShape(before, config, envs, batch);
      if droppedCount > 0 {
        var _ := WriteEntry(config, dropEnv, DropLine(droppedCount, after), WARN, true, true, |before.lines|);
      }
      if mustFlush || FlushesEachEntry(config, true) {
        var _ := FlushUnlocked(|before.lines|);
      }
    }
  }

  /** What a delivered line may rely on. */
  lemma DeliverMeets(o: Output, config: Config, env: Env, what: What, level: nat, endsLine: bool, inBatch: bool)
    ensures var r, n := Deliver(o, config, env, what, level, endsLine, inBatch), |o.lines|;
      && |r.lines| == n + 1 && r.lines[..n] == o.lines && r.lines[n].what == what
      && (r.lines[n].accepted && level >= config.syncAtLevel ==>
            forall i :: 0 <= i <= n && r.lines[i].file == r.lines[n].file ==> r.OnDisk(i))
      && (r.lines[n].accepted && (level >= config.syncAtLevel || level >= config.flushAtLevel) ==> r.flushed == n + 1)
  {
    hide Prepare, FlushesEachEntry;
    PrepareKeepsLines(o, config, env, what);
  }

  lemma StaysOk(o: Output, from: nat)
    requires OutputOk(o, |o.lines|)
    ensures OutputOk(o, from)
  {
  }

  lemma NumbersMeet(queue: TextLogQueue)
    requires queue.Valid()
    ensures queue.lastWritten <= queue.lastQueued == |queue.queued|
  {
  }

  // ---- A round of the worker -----------------------------------------------------------

  /** Take, write, mark: with no other thread in between, everything that was queued is written in the order of its numbers,
      the drops are reported after it, and nobody waits any more. */
  method RunWorkerOnce(queue: TextLogQueue, output: TextLogOutput, config: Config, envs: seq<Env>, dropEnv: Env)
      returns (stopFlag: bool)
    requires queue.Valid() && output.Valid() && queue.inFlight == [] && |envs| == |queue.entries|
    requires WrittenEntries(output.lines) == queue.queued[..queue.lastWritten]
    modifies queue, output
    ensures queue.Valid() && output.Valid() && queue.inFlight == [] && stopFlag == queue.isStopping == old(queue.isStopping)
    ensures queue.queued == old(queue.queued) == WrittenEntries(output.lines) && queue.lastWritten == queue.lastQueued
    ensures queue.isAsync == queue.isAsyncActive == old(queue.isAsyncActive) && queue.dropped == 0
    ensures old(queue.dropped) > 0 ==>
              output.lines != [] && output.lines[|output.lines| - 1].what == DropLine(old(queue.dropped), queue.lastQueued)
  {
    hide WrittenEntries, OutputOk, WriteQueued, MarkWritten, QueueOk;
    NumbersMeet(queue);
    var batch, droppedCount;
    ghost var count, last := queue.dropped, queue.lastQueued;
    batch, droppedCount, stopFlag := queue.TakeEntries();
    if batch != [] || droppedCount > 0 {
      output.WriteQueuedEntries(config, envs, dropEnv, batch, droppedCount, queue.lastQueued);
    }
    assert queue.queued[..queue.lastWritten] + batch == queue.queued;
    ghost var lines := output.lines;
    assert count > 0 ==> lines != [] && lines[|lines| - 1].what == DropLine(count, last);
    queue.FinishBatch(batch);
    assert output.lines == lines && queue.lastQueued == last;
  }
}
