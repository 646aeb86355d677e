/** The output of a text logger, with the flush and sync rules of the file logger: which lines were written, which of
    them left the stream's buffer, and which are on the disk. The functions say what each hook does. */
module AsyncOutput {
  import opened AsyncQueue

  datatype FlushMode = EveryWrite | OnNewLine | Manual | Periodic

  datatype Config = Config(
    queueCapacity: nat,
    dropNewest: bool,
    waitAtLevel: nat,
    asyncEnabled: bool,
    flushMode: FlushMode,
    flushInterval: int,
    flushAtLevel: nat,
    syncAtLevel: nat,
    autoClose: bool)

  datatype What =
    | Queued(entry: Entry)
    | Direct(record: Record, dropsBefore: nat) // dropsBefore: the entries dropped so far when the caller left the queue
    | DropLine(count: nat, after: nat)         // after: the last sequence number taken with this count

  /** An attempt to write a line, accepted by the output or refused, into the file with this number. */
  datatype Line = Line(what: What, accepted: bool, syncs: bool, file: nat)

  /** lines[..flushed] left the buffer. 'synced' says of a file up to which line it was synced to the disk. An initialized
      output is closed only between entries, or if it couldn't be reopened. */
  datatype Output = Output(
    lines: seq<Line>,
    flushed: nat,
    file: nat,
    synced: map<nat, nat>,
    isOpen: bool,
    isInitialized: bool)
  {
    predicate OnDisk(i: nat)
      requires i < |lines|
    {
      lines[i].file in synced && i < synced[lines[i].file]
    }
  }

  /** What the environment decides about one attempt: whether a closed output opens; whether the stream is closed for a
      rotation, which file it goes on with (a new one, or the same one if it couldn't be renamed) and whether that opens;
      and whether the logger was disabled (or, for an entry that isn't forced, its level raised) meanwhile. */
  datatype Env = Env(opens: bool, rotates: bool, nextFile: nat, reopens: bool, filtered: bool)

  const EMPTY_OUTPUT := Output([], 0, 0, map[], false, false)

  function Flush(o: Output): Output {
    if o.isOpen then o.(flushed := |o.lines|) else o
  }

  /** CloseFileUnlocked(): the logger stays initialized. */
  function Close(o: Output): Output {
    Flush(o).(isOpen := false)
  }

  /** CloseUnlocked(): Close() and Finalize() end the initialized state as well. */
  function Shut(o: Output): Output {
    Close(o).(isInitialized := false)
  }

  /** OpenUnlocked() */
  function Open(o: Output, opens: bool): Output {
    if o.isOpen || opens then o.(isOpen := true, isInitialized := true) else o
  }

  function Sync(o: Output): Output {
    if o.isOpen then
      o.(flushed := |o.lines|, synced := o.synced[o.file := |o.lines|])
    else o
  }

  function Rotate(o: Output, nextFile: nat, reopens: bool): Output {
    Close(o).(file := nextFile, isOpen := reopens)
  }

  /** EnsureReadyUnlocked(): only a logger that opens its file for each entry needs no Initialize() or Open() before. */
  function EnsureReady(o: Output, config: Config, env: Env): Output {
    if config.autoClose || o.isInitialized then Open(o, env.opens) else o
  }

  /** WriteLogEntry() writes no entry and no drop line of a logger disabled meanwhile; a queued line doesn't pass there. */
  predicate IsFiltered(what: What, env: Env) {
    env.filtered && !what.Queued?
  }

  /** The part before the write, up to PrepareWriteUnlocked(): the output is open afterwards iff it takes the line. */
  function Prepare(o: Output, config: Config, env: Env, what: What): Output {
    var ready := EnsureReady(o, config, env);
    if ready.isOpen && env.rotates && !IsFiltered(what, env) then Rotate(ready, env.nextFile, env.reopens) else ready
  }

  predicate FlushesEachEntry(config: Config, endsLine: bool) {
    config.flushMode == EveryWrite || (config.flushMode == OnNewLine && endsLine)
    || (config.flushMode == Periodic && config.flushInterval <= 0)
  }

  function MaybeFlush(o: Output, config: Config, level: nat, endsLine: bool, inBatch: bool): Output {
    if level >= config.syncAtLevel then Sync(o)
    else if (FlushesEachEntry(config, endsLine) && !inBatch) || level >= config.flushAtLevel then Flush(o)
    else o
  }

  function AfterEntry(o: Output, config: Config): Output {
    if config.autoClose then Close(o) else o
  }

  /** One entry through the hooks: readiness, rotation, the write with its flush, and the close between entries. */
  function Deliver(o: Output, config: Config, env: Env, what: What, level: nat, endsLine: bool, inBatch: bool): Output {
    var p := Prepare(o, config, env, what);
    var accepted := p.isOpen && !IsFiltered(what, env);
    var line := Line(what, accepted, level >= config.syncAtLevel, p.file);
    var q := p.(lines := p.lines + [line]);
    AfterEntry(if accepted then MaybeFlush(q, config, level, endsLine, inBatch) else q, config)
  }

  function DeliverEntry(o: Output, config: Config, env: Env, entry: Entry): Output {
    Deliver(o, config, env, Queued(entry), entry.record.level, entry.record.endsLine, true)
  }

  function WriteBatch(o: Output, config: Config, envs: seq<Env>, batch: seq<Entry>): Output
    requires |envs| == |batch|
  {
    if batch == [] then o
    else
      var n := |batch| - 1;
      DeliverEntry(WriteBatch(o, config, envs[..n], batch[..n]), config, envs[n], batch[n])
  }

  /** A caller waits for one of the accepted lines from index 'from' on to be flushed. */
  predicate NeedsFlush(line: Line) {
    line.accepted && line.what.Queued? && line.what.entry.mustFlush
  }

  predicate MustFlushFrom(lines: seq<Line>, from: nat) {
    exists i :: from <= i < |lines| && NeedsFlush(lines[i])
  }

  function AfterQueuedEntries(o: Output, config: Config, mustFlush: bool): Output {
    if mustFlush || FlushesEachEntry(config, true) then Flush(o) else o
  }

  function WriteDropLine(o: Output, config: Config, env: Env, count: nat, after: nat): Output {
    if count > 0 then Deliver(o, config, env, DropLine(count, after), WARN, true, true) else o
  }

  /** WriteQueuedEntries() up to the release of the output's lock. */
  function WriteQueued(o: Output, config: Config, envs: seq<Env>, dropEnv: Env, batch: seq<Entry>, count: nat, after: nat): Output
    requires |envs| == |batch|
  {
    var written := WriteBatch(o, config, envs, batch);
    var reported := WriteDropLine(written, config, dropEnv, count, after);
    AfterQueuedEntries(reported, config, MustFlushFrom(written.lines, |o.lines|))
  }

  lemma MustFlushSnoc(before: seq<Line>, after: seq<Line>, from: nat)
    requires from <= |before| && |after| == |before| + 1 && after[..|before|] == before
    ensures MustFlushFrom(after, from) == (MustFlushFrom(before, from) || NeedsFlush(after[|before|]))
  {
    if MustFlushFrom(before, from) {
      var k :| from <= k < |before| && NeedsFlush(before[k]);
      assert NeedsFlush(after[k]);
    }
  }

  lemma WriteBatchSnoc(o: Output, config: Config, envs: seq<Env>, batch: seq<Entry>, i: nat)
    requires |envs| == |batch| && i < |batch|
    ensures WriteBatch(o, config, envs[..i + 1], batch[..i + 1])
         == DeliverEntry(WriteBatch(o, config, envs[..i], batch[..i]), config, envs[i], batch[i])
  {
    assert batch[..i + 1][..i] == batch[..i] && envs[..i + 1][..i] == envs[..i];
  }
}
