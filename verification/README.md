# A verified model of ASWLog

ASWLog is a logging library for C++20. Its input and output are thin; what is hard in it is one concurrent protocol,
several bounded structures, and hand-written codecs and parsers. This project models those parts in Dafny and proves
what the library's code and documentation promise of them, for all inputs and all runs.

`dafny verify dfyconfig.toml` checks everything. Each file holds one module:

- **The asynchronous writer.** `AsyncQueue` holds the critical sections of the queue, `AsyncOutput` the output with its written,
  flushed and synced prefixes, and `AsyncRun` the step system: any number of callers, one worker, threads that open,
  flush, close and reconfigure, and callbacks on the worker. A step is one critical section, one atomic read, or the end
  of one wait. `AsyncOrder`, `AsyncThreads`, `AsyncDelivery`, `AsyncLedger`, `AsyncDrops` and `AsyncLiveness` prove the
  invariants, `AsyncAdmission` and `AsyncFlushing` what the configuration decides about dropping, waiting, flushing and the
  worker, `AsyncStranded` says when a queued entry can lose its worker and who waits for ever then, `AsyncHangs` has
  runs in which that happens, put together from the whole calls in `AsyncCalls`, and `AsyncTheorems` states what holds
  after every run. `AsyncLog` has the queue and the output as classes that update their fields in place.
- **Text.** `Unicode` and `Transcoding` decode UTF-8, `Utf16` adds UTF-16 and the way there and back, `Words` the tests on
  eight bytes at once, `Json` and `JsonPieces` the escaping with a strict reader as its reference, and `Multiline` the
  line breaks.
- **Crash lines.** `CrashText` is the fixed buffer, `CrashLine` and `CrashLineWriter` the lines built in it, `JsonReader` a
  strict reader of JSON values, `CrashLineReader` what it finds in the lines, and `CrashLineText` what the lines in the text
  layout say. `CrashList` is the list of loggers a
  crash flushes.
- **Patterns.** `Wildcard` matches file names; `Pattern` and `PatternParser` parse line patterns, and `PatternMeaning` says
  what a pattern means without the parser's state.
- **Fields.** `Fields` merges an entry's fields with its scopes'; `PendingEntry` copies, sets and removes them.
- **Filtering.** `Filtering` has trees of category, multi and base loggers, and the packed levels.
- **Bounded structures.** `Backtrace`, `MemoryLog`, `Limiter` and `Backups`.
- `Sequences` has facts about slices, and `Decimals` the decimal numbers, that the others share.

What the library updates in place is a class or a method with a loop here, proved against a function of the values; the
properties are then proved of that function. Bytes are integers from 0 to 255, and shifts and masks are divisions and
remainders, except in `Words`, where the 64-bit words are bit vectors. Waits are steps with a guard, and atomics are
sequentially consistent.

Where the code and its documentation, or an obvious expectation, part ways, the model follows the code:

- A crash line keeps a field "only if it fits whole", with a long text cut to fit, but a key can be cut too:
  `CutKeyIsRead` gives a record and what is read from its line. `KeyIsWhole` says exactly when a kept key is whole. The
  line is a complete object all the same.
- A callback on the worker that stops it or takes a stop back can leave an entry in the queue of a worker that has ended,
  and its caller waiting for ever. `HangsWhenActivatedLate`, `HangsWhenResumedLate` and `HangsWhenSwitchedOnLate` are three
  such runs of a new logger; `StepServed` and `ServedExactly` say exactly which steps make it possible. Flush(), Close(),
  Reconfigure() and Finalize() then wait for ever too (`NobodyReturns`); Open() on another thread helps if the stop still
  stands (`OpenHelps`), and otherwise nothing does (`NothingHelps`).
- A sync after a rotation covers the new file only, so it can leave an earlier line off the disk (`SyncLeavesBehind`).
  `OnDiskExactly` and `SyncReaches` say exactly when everything is on the disk.
- Every n-th call is allowed for ever only if n divides 2 to the 64 (`EveryNForEver`).
- At the last tick of the clock, an interval no longer keeps calls apart (`SpacingEndsWithTheClock`), and a call can be
  allowed next to another one (`AllowedInBetween`). `AllowedExactly` says exactly which calls are allowed.

## Model

| member | source | states |
|---|---|---|
| AsyncTheorems.EveryRun | ASWLog/ASWLog_TextLogBase.cpp:437-507 | After any interleaving of callers, worker, switches and worker callbacks: the in-flight batch followed by the queue is exactly lastWritten+1..lastQueued, the asynchronous flag is "active or not yet drained", written entries are a prefix of the queued ones, every thread's lines stand in the order it logged them, every record is in exactly one place, every drop is pending, in flight or reported once, and at most one thread changes the worker |
| AsyncTheorems.EveryRunWithOneCapacity | ASWLog/ASWLog_TextLogBase.cpp:461-477 | With a fixed capacity and no logging on the worker: the queue never exceeds max(1, capacity), a non-zero drop count means a full queue, and each "Dropped N" line stands after every entry queued before those drops and before every entry queued or directly written after them |
| AsyncTheorems.EveryRunCanFinish | ASWLog/ASWLog_TextLogBase.cpp:611-670 | After any run without the two steps that strand the worker, at most seven steps of the worker alone write everything queued and end every wait: for room, for the queue to drain, for an entry, for what was queued before an operation, or for a stopped worker |
| AsyncTheorems.EveryQuietRunCanFinish | ASWLog/ASWLog_TextLogBase.cpp:611-670 | In particular after any run in which no callback on the worker stops or restarts it |
| AsyncTheorems.EveryRunIsServedExactly | ASWLog/ASWLog_TextLogBase.cpp:709-783 | After any run that leaves nobody in the middle of updating the worker, the state is served if and only if no entry can come to be left without a worker, whatever happens next but for those two steps; and it is served after every run without them |
| AsyncTheorems.WriteNeverReturns | ASWLog/ASWLog_TextLogBase.cpp:794-827 | After a given run in which a callback resumes the worker too late, a caller never returns from Write() and nothing more is written, whatever any thread does from there, operations like Open() and Finalize() included |
| AsyncThreads.RunKeepsOrder | ASWLog/ASWLog_TextLogBase.cpp:1149-1165 | Over any run, a direct write never overtakes an entry its thread queued earlier, and what is still queued of a thread comes after all of its written lines |
| AsyncThreads.StepKeepsOrder | ASWLog/ASWLog_TextLogBase.cpp:673-683 | Each step of a caller, of the worker or of a switch between synchronous and asynchronous writing keeps both orders |
| AsyncOrder.CountersKept | ASWLog/ASWLog_TextLogBase.cpp:644-652 | Each step keeps the sequence numbers of batch and queue consecutive and the asynchronous flag exact |
| AsyncOrder.MarkingKeepsCounters | ASWLog/ASWLog_TextLogBase.cpp:1107-1119 | Marking a batch written moves lastWritten by exactly the batch's length |
| AsyncOrder.OneUpdaterKept | ASWLog/ASWLog_TextLogBase.cpp:709-777 | At most one thread stops, joins or starts the worker, and it starts one only where there is none |
| AsyncOrder.DecidingKeepsEntries | ASWLog/ASWLog_TextLogBase.cpp:709-777 | What UpdateWorker() or a callback on the worker decides leaves queue, counters and flag consistent |
| AsyncOrder.WriteQueuedShape | ASWLog/ASWLog_TextLogBase.cpp:1050-1100 | A batch becomes one line for each entry in order, then one line for its drops, if any |
| AsyncAdmission.QueuingDecides | ASWLog/ASWLog_TextLogBase.cpp:437-507 | A formatted record that comes to the queue, with the configuration it was formatted with: it is written directly or waits for the queue to drain if async is off, is queued with the next number if the queue holds fewer entries than the capacity (or none), and otherwise is dropped if and only if the policy is DropNewest and its level is below WaitAtLevel, and else waits for room; a queued one is waited for if and only if its level is at or above WaitAtLevel |
| AsyncAdmission.RoomDecides | ASWLog/ASWLog_TextLogBase.cpp:470-473 | A caller that waits for room goes on if and only if there is some or async is off, and then just as if it came only then |
| AsyncAdmission.OnlyDroppableAreDropped | ASWLog/ASWLog_TextLogBase.cpp:456-473 | In every run with one WaitAtLevel and one OverflowPolicy, whatever else is reconfigured: entries are dropped only with DropNewest and only below WaitAtLevel, callers wait for room only with entries that can't be dropped, and for their entries exactly from WaitAtLevel on |
| AsyncLedger.RunAccounted | ASWLog/ASWLog_TextLogBase.cpp:464-506 | Over any run, each record given to a thread other than the worker is exactly one of: still in its call, queued once, dropped once, written directly once |
| AsyncLedger.StepAccounted | ASWLog/ASWLog_TextLogBase.cpp:464-506 | Each step keeps that account |
| AsyncDrops.RunBalanced | ASWLog/ASWLog_TextLogBase.cpp:1072-1095 | Drops so far are the pending count, plus the count the worker carries, plus the counts reported |
| AsyncDrops.RunReportsDrops | ASWLog/ASWLog_TextLogBase.cpp:1061-1095 | With a fixed capacity, the same balance for the drops of every single place in the queue |
| AsyncDrops.DrainedMeansReported | ASWLog/ASWLog_TextLogBase.cpp:1072-1095 | Once the queue is drained, every drop has been reported |
| AsyncDelivery.RunDelivers | ASWLog/ASWLog_TextLogBase.cpp:1050-1138 | Over any run, no line a caller waits for is unflushed once its batch is marked, a closed output has nothing unflushed, and what a sync covered stays covered |
| AsyncDelivery.WaitingCallReturns | ASWLog/ASWLog_TextLogBase.cpp:499-504 | When the call of an entry at or above WaitAtLevel returns, the entry has its line, every entry with a smaller sequence number has one before it, and if the output accepted the entry, its line and every accepted line before it are flushed |
| AsyncDelivery.OperationsComeAfter | ASWLog/ASWLog_TextLogBase.cpp:90-104 | Flush(), Close(), Reconfigure() and Finalize() act only after everything queued before their call was written; Flush() and Close() leave no accepted line unflushed |
| AsyncDelivery.QueuedLinesInSequence | ASWLog/ASWLog_TextLogBase.cpp:1061-1070 | Queued entries reach the output in sequence order, each at most once |
| AsyncDelivery.DeliverOk | ASWLog/ASWLog_FileLog.cpp:720-738 | Writing and flushing one entry by the flush rules keeps the written, flushed and synced prefixes consistent |
| AsyncDelivery.WriteQueuedOk | ASWLog/ASWLog_FileLog.cpp:505-516 | After a batch that holds an entry somebody waits for, nothing accepted is unflushed |
| AsyncFlushing.DirectWriteFlushes | ASWLog/ASWLog_FileLog.cpp:720-738 | One entry written by its caller: when it is accepted and into which file; if it is, nothing is left in the buffer if and only if the mode is EveryWrite, or OnNewLine with a line that ends, or Periodic without an interval, or a level asks for it, or the file is closed between entries; otherwise the flushed lines stay where they were, or where a rotation left them; and it is synced exactly from SyncToDiskAtLevel on |
| AsyncFlushing.WorkerLogFlushes | ASWLog/ASWLog_FileLog.cpp:720-738 | The same for a callback on the worker that logs |
| AsyncFlushing.BatchIsFlushed | ASWLog/ASWLog_FileLog.cpp:505-516 | A batch: a mode that flushes leaves nothing accepted in the buffer, a flush or sync level or a waiting caller nothing up to its entry; and where nothing asks for it, nothing is flushed or synced |
| AsyncFlushing.BatchEntryIsAccepted | ASWLog/ASWLog_TextLogBase.cpp:1061-1070 | An entry of a batch is accepted whenever the output is ready and open after a rotation, even if the logger was disabled meanwhile |
| AsyncFlushing.WakeFlushes | ASWLog/ASWLog_FileLog.cpp:741-746 | FlushMode::Periodic: when the worker wakes, nothing accepted is left in the buffer |
| AsyncFlushing.EveryRunFlushes | ASWLog/ASWLog_FileLog.cpp:720-738 | In every run whose configurations flush each entry, nothing accepted is in the buffer after any step |
| AsyncFlushing.OperationMeans | ASWLog/ASWLog_TextLogBase.cpp:90-104 | What Flush(), Close(), Open(), Initialize(), Reconfigure() and Finalize() leave: an open or closed output, an initialized logger or not, the configuration, and nothing in the buffer but after Open() and Initialize() |
| AsyncFlushing.UpdateFollows | ASWLog/ASWLog_TextLogBase.cpp:141-180 | Each of them but Flush() updates the worker afterwards, and Finalize() doesn't let go before there is none |
| AsyncFlushing.DecisionMeans | ASWLog/ASWLog_TextLogBase.cpp:709-777 | UpdateWorker() in terms of the configuration: a worker is wanted by an initialized logger that is asynchronous, or flushes periodically and keeps its file open; a wanted one that wasn't told to stop is kept with the new settings, any other one is told to stop and joined, and where there is none a wanted one is started |
| AsyncFlushing.StartMeans | ASWLog/ASWLog_TextLogBase.cpp:770-777 | The thread that started a worker switches async on as the configuration asked, and only then lets others update it |
| AsyncFlushing.CallbackMeans | ASWLog/ASWLog_TextLogBase.cpp:794-827 | On the worker itself, another thread's stop stands, and otherwise the worker goes on if and only if it is wanted |
| AsyncFlushing.WhatWakes | ASWLog/ASWLog_TextLogBase.cpp:628-652 | A waiting worker goes on if and only if it is told to stop, there are entries or drops, or it is time to flush; it takes all of them, and acts on the stop as it found it |
| AsyncDelivery.OnDiskExactly | ASWLog/ASWLog_FileLog.cpp:720-738 | At any time, every accepted line is on the disk if and only if in each file the last accepted line was at or above SyncToDiskAtLevel |
| AsyncDelivery.SyncReaches | ASWLog/ASWLog_FileLog.cpp:1070-1076 | After any run whose last accepted line is at that level, its file is on the disk up to it, and every accepted line is if and only if each other file ended with such a line |
| AsyncDelivery.SyncLeavesBehind | ASWLog/ASWLog_FileLog.cpp:989-1060 | A concrete run of a new logger, Initialize() and two calls, the second of which rotates the file and is synced: the first entry is on the disk if and only if the file couldn't be renamed |
| AsyncLiveness.StepServed | ASWLog/ASWLog_TextLogBase.cpp:673-683 | From a served state (async is on and entries are queued only with a worker that will take the queue again, and a worker not told to stop will), a step leads out of it if and only if it activates async after the worker was told to stop, or takes back, on the worker, a stop that its loop has already read |
| AsyncLiveness.RunServed | ASWLog/ASWLog_TextLogBase.cpp:662-668 | A run is served throughout if and only if it takes neither of these two steps |
| AsyncLiveness.QuietRunStrandsNobody | ASWLog/ASWLog_TextLogBase.cpp:709-783 | A run in which no callback stops or restarts the worker takes neither |
| AsyncLiveness.WorkerFreesEveryone | ASWLog/ASWLog_TextLogBase.cpp:837-847 | From a served state the worker alone writes everything queued, ends if told to, and ends every wait but that for the worker's lock, in at most seven steps |
| AsyncLiveness.EndedMeansWritten | ASWLog/ASWLog_TextLogBase.cpp:662-668 | Where a worker has ended in a served state, nothing queued is unwritten and callers write themselves |
| AsyncStranded.ServedExactly | ASWLog/ASWLog_TextLogBase.cpp:662-668 | While nobody updates the worker, a state is served if and only if no run without the two steps leaves an entry queued that no worker will take |
| AsyncStranded.AbandonsSomebody | ASWLog/ASWLog_TextLogBase.cpp:455-506 | From any other state, calls, Initialize() or Reconfigure() with async on, and the worker's own loop lead to such an entry |
| AsyncStranded.OnlyDecidingHelps | ASWLog/ASWLog_TextLogBase.cpp:709-777 | Once the worker has ended, nothing but the decision of UpdateWorker() on another thread writes an entry, ends a wait for one, or brings a worker back |
| AsyncStranded.DecidingReplaces | ASWLog/ASWLog_TextLogBase.cpp:733-768 | That decision replaces an ended worker if and only if it was told to stop or isn't wanted: in Finalize(), while the logger isn't initialized, or with a configuration without one |
| AsyncStranded.NobodyReturns | ASWLog/ASWLog_TextLogBase.cpp:837-847 | With the worker ended and entries unwritten, Flush(), Close(), Reconfigure() and Finalize() and everybody who waits for an entry wait for ever, unless some thread calls Open() or Initialize() |
| AsyncStranded.NothingHelps | ASWLog/ASWLog_TextLogBase.cpp:734-741 | If no stop of the ended worker stands, the logger is initialized with a configuration that wants one, and no thread is about to stop or replace it, then nothing that any thread does, these two included, writes an entry or ends a wait |
| AsyncHangs.HangsWhenActivatedLate | ASWLog/ASWLog_TextLogBase.cpp:709-783 | A run from a new logger in which an error handler closes it on the worker while Initialize() is starting that worker: it ends with the worker ended, an entry queued and its caller waiting |
| AsyncHangs.HangsWhenResumedLate | ASWLog/ASWLog_TextLogBase.cpp:794-827 | A run in which the callbacks for two entries turn async off and on again, the second after the worker's loop has read the stop: it ends the same way, with everybody taking the worker for running |
| AsyncHangs.HangsWhenSwitchedOnLate | ASWLog/ASWLog_TextLogBase.cpp:794-827 | A run in which the worker is resumed too late for its periodic flush only, and Reconfigure() on another thread later switches async on: it ends the same way |
| AsyncHangs.OpenHelps | ASWLog/ASWLog_TextLogBase.cpp:743-776 | If the ended worker was told to stop, Open() on any idle thread joins it and starts one that writes everything queued |
| AsyncLog.TextLogQueue.QueueRecord | ASWLog/ASWLog_TextLogBase.cpp:455-506 | Keeps batch and queue the consecutive entries after lastWritten; the entry gets the next number if there is room; if there is none, it is counted as dropped if and only if the policy is DropNewest and its level is below WaitAtLevel, and otherwise waits; and it goes to the direct write only if nothing is unwritten |
| AsyncLog.TextLogQueue.QueueAfterWait | ASWLog/ASWLog_TextLogBase.cpp:464-506 | The same after waiting for room, when writing may have become synchronous meanwhile |
| AsyncLog.TextLogQueue.TakeEntries | ASWLog/ASWLog_TextLogBase.cpp:631-652 | The worker takes exactly the unwritten entries, with the drop count and the stop flag it will act on |
| AsyncLog.TextLogQueue.FinishBatch | ASWLog/ASWLog_TextLogBase.cpp:1107-1119 | Everybody who waits for an entry of the batch can go on, and the flag stays set exactly if async is on or entries are queued |
| AsyncLog.TextLogQueue.SetAsyncActive | ASWLog/ASWLog_TextLogBase.cpp:673-683 | The flag is set afterwards exactly if async is on or an entry is unwritten, so no caller overtakes one |
| AsyncLog.TextLogQueue.UpdateWorker | ASWLog/ASWLog_TextLogBase.cpp:709-777 | Keeps the queue's invariant and touches no entry; a worker is kept only if wanted and not told to stop, and started only where there is none; a stop turns async off |
| AsyncLog.TextLogQueue.UpdateWorkerFromWorker | ASWLog/ASWLog_TextLogBase.cpp:794-827 | Keeps the invariant; another thread's stop stands, the worker's own stands exactly if it isn't wanted, and no stop leaves async turned on by it |
| AsyncLog.TextLogOutput.WriteEntry | ASWLog/ASWLog_TextLogBase.cpp:1008-1021 | One line more, and if it is accepted, everything before it is flushed or on the disk as its level asks before the lock is released |
| AsyncLog.TextLogOutput.WriteBatchEntries | ASWLog/ASWLog_TextLogBase.cpp:1061-1070 | Every entry of the batch has its line, in order, and the result says whether one that was accepted is waited for |
| AsyncLog.TextLogOutput.WriteQueuedEntries | ASWLog/ASWLog_TextLogBase.cpp:1050-1100 | The batch's lines, then the one that reports the drops; no accepted line that somebody waits for is left unflushed, and with a mode that flushes none at all |
| AsyncLog.TextLogOutput.MaybeFlushUnlocked | ASWLog/ASWLog_FileLog.cpp:720-738 | After the line just appended, a sync level leaves all of its file on the disk; the buffer is flushed if and only if a level, or outside a batch the mode (EveryWrite, OnNewLine with a line that ends, Periodic without an interval), asks for it |
| AsyncLog.TextLogOutput.SyncToDiskUnlocked | ASWLog/ASWLog_FileLog.cpp:1070-1076 | Every line of the open file is on the disk afterwards, and nothing is in the buffer |
| AsyncLog.TextLogOutput.EnsureReadyUnlocked | ASWLog/ASWLog_FileLog.cpp:633-650 | The output is open afterwards if and only if it was, or the file can be opened and the logger is initialized or opens its file for each entry; nothing written, flushed or synced changes |
| AsyncLog.RunWorkerOnce | ASWLog/ASWLog_TextLogBase.cpp:611-670 | A round of the worker with nobody in between: everything that was queued is written in the order of its numbers, its drops are reported after it, and the flag is just whether async is on |
| Unicode.BeginsMeansBegins | ASWLog/ASWLog_Unicode.cpp:138-189 | The starts the decoder accepts are exactly the proper, non-empty prefixes of characters of section 4 of RFC 3629 |
| Unicode.SubpartIsMaximal | ASWLog/ASWLog_Utils.cpp:764-769 | The length skipped where no character starts is that of the longest start of one |
| Unicode.ValueOfEncoded | ASWLog/ASWLog_Unicode.cpp:60-84 | Encoding a scalar value gives one character of RFC 3629 with that value |
| Unicode.EncodedValue | ASWLog/ASWLog_Unicode.cpp:138-189 | The value of any character is a scalar value (no overlong form, surrogate or value above U+10FFFF) and encodes to the same bytes |
| Unicode.BitsDoNotOverlap | ASWLog/ASWLog_Unicode.cpp:60-84 | Where the code joins bits with "or", the bits don't overlap, so the model's sums are the same numbers |
| Transcoding.DecodeUTF8 | ASWLog/ASWLog_Unicode.cpp:138-189 | Decodes the character at the index, or U+FFFD for exactly the maximal ill-formed subpart there |
| Transcoding.MeasureUTF8Sequence | ASWLog/ASWLog_Utils.cpp:770-818 | Consumes at every index the same bytes as the decoder |
| Transcoding.Scalars8OfEncoded | ASWLog/ASWLog_Unicode.cpp:60-84 | Decoding encoded text gives the text back |
| Transcoding.EncodedOfScalars8 | ASWLog/ASWLog_Unicode.cpp:138-189 | Encoding decoded bytes gives the bytes with each maximal ill-formed subpart replaced by U+FFFD |
| Transcoding.SanitisedIsWellFormed | ASWLog/ASWLog_Unicode.cpp:131-136 | That result is well-formed, and the same as the input if and only if the input was well-formed |
| Utf16.DecodeUTF16 | ASWLog/ASWLog_Unicode.cpp:112-129 | A code unit, a surrogate pair, or U+FFFD for one unpaired surrogate |
| Utf16.SplitPair | ASWLog/ASWLog_Unicode.cpp:92-103 | A character above U+FFFF becomes a high and a low surrogate that stand for it (section 2 of RFC 2781) |
| Utf16.ToUTF16 | ASWLog/ASWLog_Unicode.cpp:197-206 | All characters decoded from the UTF-8 text, encoded in order |
| Utf16.ToUTF8 | ASWLog/ASWLog_Unicode.cpp:214-223 | All characters decoded from the UTF-16 text, encoded in order |
| Utf16.UTF8ThereAndBack | ASWLog/ASWLog_Unicode.cpp:197-223 | UTF-8 to UTF-16 and back sanitises, and is the identity if and only if the text is well-formed |
| Utf16.UTF16ThereAndBack | ASWLog/ASWLog_Unicode.cpp:197-223 | UTF-16 to UTF-8 and back replaces exactly the unpaired surrogates, each by one U+FFFD, with well-formed UTF-8 in between |
| Words.IsPlainJSONWordIsExact | ASWLog/ASWLog_Utils.cpp:745-761 | The 64-bit test is true if and only if all eight bytes are plain, despite borrows between bytes |
| Words.HasCROrLFIsExact | ASWLog/ASWLog_Utils.cpp:713-727 | The 64-bit test is true if and only if one of the eight bytes is a CR or LF |
| Json.ReadsEscaped | ASWLog/ASWLog_Utils.cpp:1071-1082 | For all bytes, a strict reader of section 7 of RFC 8259 takes the escaped text up to its closing quote, and no further, as the input with each maximal ill-formed subpart replaced by U+FFFD |
| Json.EscapedIsWellFormed | ASWLog/ASWLog_Utils.cpp:875-961 | For all bytes, the escaped text is well-formed UTF-8 |
| Json.EscapeIsShort | ASWLog/ASWLog_Utils.cpp:917-960 | An escape is the two-character one where JSON has one, but for the slash, and otherwise has lower-case digits |
| Json.PlainIsUnchanged | ASWLog/ASWLog_Utils.cpp:875-961 | Well-formed text without a quote, a backslash or a control character stays as it is |
| JsonPieces.NextJSONPiece | ASWLog/ASWLog_Utils.cpp:875-961 | A piece is a run of whole characters that stand as they are, found eight bytes at a time, one whole escape or U+FFFD, or empty exactly at the end |
| JsonPieces.WriteEscape | ASWLog/ASWLog_Utils.cpp:917-960 | The escape is printable ASCII, and whatever follows it, a strict reader takes it as exactly the character |
| JsonPieces.AppendString | ASWLog/ASWLog_Utils.cpp:1071-1082 | The pieces between quotes are the escaped text, byte for byte |
| JsonPieces.ReadsEscapedWithin | ASWLog/ASWLog_CrashHandler.cpp:672-705 | What fits into a room reads as the text's first characters |
| JsonPieces.AllFits | ASWLog/ASWLog_CrashHandler.cpp:672-705 | All characters are kept if and only if the whole escaped text fits |
| JsonPieces.WithinIsMost | ASWLog/ASWLog_CrashHandler.cpp:672-705 | What is kept ends between two characters, and the next one wouldn't fit |
| JsonPieces.RunIsCut | ASWLog/ASWLog_CrashHandler.cpp:690-700 | Going back from the room's end to a byte that isn't a continuation byte cuts a run exactly after the last whole character that fits |
| JsonReader.ReadsRendered | ASWLog/ASWLog_CrashHandler.cpp:827-874 | A strict JSON reader takes any rendered value as its meaning and stops where it ends |
| Multiline.NextMultilinePiece | ASWLog/ASWLog_Utils.cpp:964-1005 | A piece is a run without a break to rewrite, or one whole rewritten break |
| Multiline.ApplyMultilineMode | ASWLog/ASWLog_Utils.cpp:823-839 | The line with every break rewritten as the mode asks |
| Multiline.IndentedIsMarked | ASWLog/ASWLog_Utils.cpp:990-1004 | Indenting is joining the lines between "\n" and "\r\n" with the line ending and the marker, without its space where the line is empty |
| Multiline.EscapedIsOneLine | ASWLog/ASWLog_Utils.cpp:997-998 | Escaped text holds no CR and no LF |
| Multiline.EscapedJoins | ASWLog/ASWLog_Utils.cpp:997-998 | Text is escaped byte by byte |
| Multiline.EscapedByte | ASWLog/ASWLog_Utils.cpp:997-998 | A CR becomes a backslash and an r, an LF a backslash and an n, and every other byte stays |
| Multiline.EndingsAndMarker | ASWLog/ASWLog_Utils.cpp:990-1004 | The line endings are "\n" and "\r\n", and the marker is four spaces, a bar and a space |
| Multiline.PreservedIsSame | ASWLog/ASWLog_Utils.cpp:969-973 | Preserved text is unchanged |
| Multiline.WithinIsPrefix | ASWLog/ASWLog_CrashHandler.cpp:708-731 | What a crash line takes of a message is a prefix of the rewritten message that ends between two units, and the next unit would not fit |
| CrashText.AppendedTwice | ASWLog/ASWLog_CrashHandler.cpp:618-623 | Appending to the bounded buffer twice is appending once |
| CrashText.TCrashText.Append | ASWLog/ASWLog_CrashHandler.cpp:618-623 | Adds as much of the text as fits |
| CrashText.TCrashText.AppendDecimal | ASWLog/ASWLog_CrashHandler.cpp:626-636 | Adds the digits after the zeros that pad them |
| CrashText.DigitsAreDecimal | ASWLog/ASWLog_CrashHandler.cpp:626-636 | The digits stand for the number in the decimal system, without a zero before them |
| CrashText.PaddedIsSame | ASWLog/ASWLog_CrashHandler.cpp:626-636 | The zeros before them don't change it |
| CrashText.TCrashText.AppendJSONString | ASWLog/ASWLog_CrashHandler.cpp:672-705 | Adds a closed string of as many whole characters and escapes as leave the reserve free |
| CrashText.TCrashText.AppendMultiline | ASWLog/ASWLog_CrashHandler.cpp:708-731 | Adds as much of the rewritten text as leaves the reserve free |
| CrashText.TCrashText.Truncate | ASWLog/ASWLog_CrashHandler.cpp:740-743 | Keeps the first bytes |
| CrashText.BackToCharacter | ASWLog/ASWLog_CrashHandler.cpp:692-695 | The last place within the room that isn't inside a character |
| CrashLine.LineFits | ASWLog/ASWLog_CrashHandler.cpp:829-872 | The reserves of 64 and 96 bytes suffice: whatever the record holds, each part leaves room for all that comes after it, and the line is at most 1024 bytes |
| CrashLine.CategoryFits | ASWLog/ASWLog_CrashHandler.cpp:829-850 | A category of any length leaves 64 bytes |
| CrashLine.KeptFieldsFit | ASWLog/ASWLog_CrashHandler.cpp:563-607 | Fields of any number and length leave 96 bytes |
| CrashLine.MessageFits | ASWLog/ASWLog_CrashHandler.cpp:869-873 | A message of any length leaves room for the closing quote, the brace and the line ending |
| CrashLine.AddsMember | ASWLog/ASWLog_CrashHandler.cpp:846-857 | A part appended is a complete member after a comma |
| CrashLine.Names | ASWLog/ASWLog_CrashHandler.cpp:837-869 | The names of the members, letter by letter |
| CrashLineWriter.AppendCrashJSONLine | ASWLog/ASWLog_CrashHandler.cpp:827-874 | The buffer holds one complete object of the record's members and the line ending |
| CrashLineWriter.AppendCrashLine | ASWLog/ASWLog_CrashHandler.cpp:877-911 | The buffer holds the head, as much of the message as fits before the line ending, and the line ending, always |
| CrashLineWriter.AppendCrashFields | ASWLog/ASWLog_CrashHandler.cpp:563-607 | Appends the fields that fit whole beside the reserve, and says whether there was one |
| CrashLineWriter.BuildField | ASWLog/ASWLog_CrashHandler.cpp:578-600 | A field built aside fits its room if and only if nothing of it was cut off by the buffer's end |
| CrashLineWriter.FieldsAreMembers | ASWLog/ASWLog_CrashHandler.cpp:563-607 | In a JSON line, what the fields append is a list of complete members |
| CrashLineReader.LineReads | ASWLog/ASWLog_CrashHandler.cpp:827-874 | A strict JSON reader reads the line as one object, and what is left is the line ending |
| CrashLineReader.MembersMeaning | ASWLog/ASWLog_CrashHandler.cpp:836-866 | The object's members before the message, in order, with the record's values |
| CrashLineReader.StartMeaning | ASWLog/ASWLog_CrashHandler.cpp:834-842 | The object begins with the time, the milliseconds since the epoch and the level, each whole |
| CrashLineReader.MessageMeaning | ASWLog/ASWLog_CrashHandler.cpp:868-872 | The message comes last and reads as the record's first characters, all of them if and only if they fit |
| CrashLineReader.KeptFieldsHold | ASWLog/ASWLog_CrashHandler.cpp:563-607 | The members of "fields" are some of the record's fields in their order, each with its value or the first characters of its text |
| CrashLineReader.KeyIsWhole | ASWLog/ASWLog_CrashHandler.cpp:563-607 | The j-th field of a record is kept in its line if and only if it fits, with its texts cut, into the room the fields before it left; then its key is whole if and only if it fits, escaped, before its closing quote |
| CrashLineReader.CutKeyIsRead | ASWLog/ASWLog_CrashHandler.cpp:582-603 | A concrete record, an INFO entry with a category of 817 letters, whose line a strict reader takes as an object with a field whose key lost a character, so "only if it fits whole" doesn't hold for keys |
| CrashLineReader.ValueIsWhole | ASWLog/ASWLog_CrashHandler.cpp:590-593 | The text of a kept field is whole if and only if the field with its whole text fits into the room |
| CrashLineReader.CategoryIsWhole | ASWLog/ASWLog_CrashHandler.cpp:845-849 | The category is whole if and only if it leaves 64 bytes free |
| CrashLineText.LineIsWhole | ASWLog/ASWLog_CrashHandler.cpp:877-911 | A line in the text layout that fits, with 96 bytes free after its fields, is exactly "[time][level][category][P:process][T:thread][key=value key="text"]: message" and the line ending, without the parts the record doesn't have |
| CrashLineText.LineBeginsAndEnds | ASWLog/ASWLog_CrashHandler.cpp:877-911 | Any such line begins with the time and the level in brackets and ends with the line ending, within 1024 bytes |
| CrashLineText.SomeFieldsHold | ASWLog/ASWLog_CrashHandler.cpp:563-607 | In the text layout, the fields written are some of the record's in their order, each with its key and its value or what fits of its text |
| CrashLineText.AllFieldsHold | ASWLog/ASWLog_CrashHandler.cpp:563-607 | They are all of them, in full, if that leaves 96 bytes free |
| CrashList.TCrashRegistry.Register | ASWLog/ASWLog_CrashHandler.cpp:777-793 | Puts a logger in front of the list once, with all links of the list intact |
| CrashList.TCrashRegistry.Unregister | ASWLog/ASWLog_CrashHandler.cpp:796-815 | Takes a logger off from wherever it stands, with all links of the others intact |
| CrashList.TCrashRegistry.Visit | ASWLog/ASWLog_CrashHandler.cpp:758-774 | A crash reaches each listed logger once |
| CrashList.WithoutAt | ASWLog/ASWLog_CrashHandler.cpp:796-815 | Taking a logger off removes its one place and keeps the order of the others |
| Wildcard.MatchesWildcard | ASWLog/ASWLog_Utils.cpp:571-610 | Returns true if and only if the value is in the pattern's language, for every value and pattern |
| Wildcard.FirstFitSuffices | ASWLog/ASWLog_Utils.cpp:580-599 | Once the segment after a star fits, its first fit serves every match of what follows, so only the latest star is ever tried again |
| Wildcard.StarMovesOn | ASWLog/ASWLog_Utils.cpp:595-599 | Where the rest of the pattern fails at a place, the star can take one character more without losing a match |
| Pattern.ParseUndoesPrint | ASWLog/ASWLog_Formatter.cpp:266-304 | Any part list without empty or adjacent texts and with widths up to 1000, printed with doubled braces and quoted affixes, parses back to itself |
| PatternParser.ParsedPrintsBack | ASWLog/ASWLog_Formatter.cpp:266-304 | Whatever a pattern parses to is such a part list, so every accepted pattern has a canonical form with the same meaning |
| PatternParser.ParsePattern | ASWLog/ASWLog_Formatter.cpp:266-304 | The loop over the pattern gives its parts or the first problem and its index, and whether a part needs the memory usage |
| PatternParser.ParsePlaceholder | ASWLog/ASWLog_Formatter.cpp:401-530 | On every input the loop ends with the specification's part and the index after its brace, or its first problem |
| PatternParser.ProblemPointsAt | ASWLog/ASWLog_Formatter.cpp:401-530 | A refused pattern's index is that of the brace, quote, name, width or character that the problem is about, and an unknown name is the whole word there |
| PatternMeaning.PatternIsSpelled | ASWLog/ASWLog_Formatter.cpp:266-304 | The parser accepts a pattern with given parts if and only if the pattern is a sequence of literal texts with each brace doubled, none empty or right after another, and of placeholders that stand for these parts one by one |
| PatternMeaning.PlaceholderIsSpelled | ASWLog/ASWLog_Formatter.cpp:394-400 | A text is a placeholder with a given part if and only if it is spelled from characters and quoted texts around a name and a width, and its affixes are exactly these, without the spaces next to a quoted text |
| PatternMeaning.PlaceholderMeans | ASWLog/ASWLog_Formatter.cpp:401-530 | Every placeholder that parses is spelled like that: taking unquoted spaces off an affix never takes anything else |
| PatternMeaning.PlaceholderReads | ASWLog/ASWLog_Formatter.cpp:401-530 | Every text spelled like that parses to that part |
| PatternParser.ReadQuotedText | ASWLog/ASWLog_Formatter.cpp:433-461 | The quoted text with each doubled quote as one |
| PatternParser.ReadWidthAt | ASWLog/ASWLog_Formatter.cpp:490-498 | The width, read no further than one digit beyond the limit |
| Pattern.PlaceholderParses | ASWLog/ASWLog_Formatter.cpp:401-530 | A printed placeholder parses to its part, up to its own closing brace, whatever follows |
| Pattern.QuotedReads | ASWLog/ASWLog_Formatter.cpp:433-461 | A quoted affix is read back, whatever it holds |
| Pattern.NameIsFound | ASWLog/ASWLog_Formatter.cpp:409-414 | Each of the twelve names finds its own field |
| Pattern.NamesMean | ASWLog/ASWLog_Formatter.cpp:409-414 | Which field each of the twelve names stands for |
| Fields.MergedIsMerge | ASWLog/ASWLog_Fields.h:389-448 | Each key is visited once, in the order in which the keys first appear, with its last value, and no key is missing |
| Fields.InnermostDecides | ASWLog/ASWLog_Fields.h:370-384 | The merged fields hold a field if and only if it is the last of its key among the entry's own, or none of these has its key and the enclosing scopes decide for it in the same way; the keys of the enclosing scopes come first, in their order, and then the new ones |
| Fields.MergedHasSameMap | ASWLog/ASWLog_Fields.h:389-448 | The fields visited are the map all scopes' and own fields stand for |
| Fields.MergedTwice | ASWLog/ASWLog_Fields.cpp:145-158 | Visiting merged fields again changes nothing |
| Fields.ForEachLogField | ASWLog/ASWLog_Fields.h:389-448 | The path without a scope and the path over all scopes visit each key once, with the last value of the entry's own fields or else of the innermost scope that has the key, in the order in which the keys first appear from the outermost scope inwards |
| Fields.FindWinner | ASWLog/ASWLog_Fields.h:416-442 | The inner visit finds whether the key came before and, if not, its last field |
| Fields.VisitAllLogFields | ASWLog/ASWLog_Fields.h:370-384 | The outermost scope's fields first and the entry's own last: the last field of a key is the own or else the innermost scope's |
| PendingEntry.TOwnedFields.Assign | ASWLog/ASWLog_Fields.cpp:106-142 | The copy reads as the source, and its buffer holds exactly the size reserved for it |
| PendingEntry.CopyFields | ASWLog/ASWLog_Fields.cpp:106-142 | Views into the buffer stay right while it fills up |
| PendingEntry.TOwnedFields.AssignMerged | ASWLog/ASWLog_Fields.cpp:145-158 | The copy holds what a visitor of the original gets |
| PendingEntry.CopyIsVisitedTheSame | ASWLog/ASWLog_Fields.cpp:145-158 | Visiting the copy visits the same as visiting the original |
| PendingEntry.TASWPendingEntry.FindField | ASWLog/ASWLog_Types.cpp:220-229 | The value of the key in the map of the visited fields, if it is there |
| PendingEntry.TASWPendingEntry.SetField | ASWLog/ASWLog_Types.cpp:274-294 | A map update that leaves the other fields where they are |
| PendingEntry.TASWPendingEntry.RemoveField | ASWLog/ASWLog_Types.cpp:238-250 | A map removal that leaves the other fields in their order |
| PendingEntry.TASWPendingEntry.ReplaceFields | ASWLog/ASWLog_Types.cpp:259-271 | The given fields become the only ones visited |
| PendingEntry.SettingUpdates | ASWLog/ASWLog_Types.cpp:274-294 | Setting a key is a map update; the keys stay in their order, and a new one comes last |
| PendingEntry.RemovingRemoves | ASWLog/ASWLog_Types.cpp:238-250 | Removing a key is a map removal, and the other keys stay in their order |
| Filtering.AskedIsWritten | ASWLog/ASWLog_MultiLog.cpp:297-341 | Over any tree of category, multi and base loggers, ShouldLog(record) is true if and only if Write(record) makes a base logger write or keep it |
| Filtering.LoggedThroughAPath | ASWLog/ASWLog_CategoryLog.cpp:366-398 | A tree logs a record if and only if on the way to some base logger everything is enabled, every multi-log lets it by, and the base logger's minimum, or the level that takes its place, or its backtrace lets it in |
| Filtering.WrittenAlongThePaths | ASWLog/ASWLog_Base.cpp:464-478 | Write() on a tree has exactly one effect for each path that lets the record through, in the order of the paths: the path's base logger writes it if it meets the level that decides there, and otherwise keeps it, with the given level and force and the name of its own category or else of the outermost named one on the path |
| Filtering.OutermostDecides | ASWLog/ASWLog_CategoryLog.cpp:377-391 | The level that takes the minimum's place is that of the outermost category that has one, since the last multi-log |
| Filtering.GateLetsIn | ASWLog/ASWLog_Base.h:207-228 | The gate lets in what meets the minimum level or, unless that is Off, what the backtrace keeps; a forced entry always, unless its level is Off |
| Filtering.PackedLevels | ASWLog/ASWLog_Base.h:91-111 | Each of the three levels is read back from the packed word |
| Filtering.GateMatchesBoth | ASWLog/ASWLog_Base.cpp:182-189 | However updates of the minimum and of the backtrace level interleave, the gate is that of the last of each |
| Filtering.AskLoggers | ASWLog/ASWLog_MultiLog.cpp:297-317 | The loop over the sinks answers as the model of ShouldLog() |
| Filtering.WriteLoggers | ASWLog/ASWLog_MultiLog.cpp:334-341 | The loop over the sinks has exactly these effects |
| Backtrace.TBacktrace.Keep | ASWLog/ASWLog_Base.cpp:209-241 | Read oldest first, the ring holds the newest entries within the capacity, the new one last |
| Backtrace.TBacktrace.ApplyCapacity | ASWLog/ASWLog_Base.cpp:160-180 | A new capacity keeps the newest entries in order |
| Backtrace.TBacktrace.Take | ASWLog/ASWLog_Base.cpp:371-380 | Gives all entries, oldest first, and forgets them |
| Backtrace.TBacktrace.VisitForCrash | ASWLog/ASWLog_Base.h:266-293 | Visits all entries, oldest first and forced, wherever the ring starts |
| Backtrace.TLogger.WriteOrKeep | ASWLog/ASWLog_Base.cpp:464-478 | An entry only the backtrace let in is kept; an entry that dumps comes after exactly the kept entries, once, between the markers |
| Backtrace.TLogger.WriteBacktrace | ASWLog/ASWLog_Base.cpp:421-455 | The markers and the entries between them, or nothing if nothing is kept |
| Backtrace.DoSteps | ASWLog/ASWLog_Base.cpp:160-241 | After any keeps, capacity changes, dumps and visits of a new ring, it holds, oldest first, exactly the newest entries that the simple list holds, and its dumps are that list's |
| Backtrace.RunKeepsNewest | ASWLog/ASWLog_Base.cpp:160-241 | Over any run, the simple list's entries are the newest without a gap, and none is dumped twice or out of order |
| Backtrace.KeepsAsManyAsFit | ASWLog/ASWLog_Base.cpp:209-241 | With an unchanged capacity, exactly the newest that many, or all |
| MemoryLog.TASWMemoryLog.WriteLine | ASWLog/ASWLog_MemoryLog.cpp:162-184 | The new line is always kept, before it the longest end of the older ones that fits, and lines and bytes stay exact |
| MemoryLog.TASWMemoryLog.DropOldestLines | ASWLog/ASWLog_MemoryLog.cpp:84-91 | Drops no more than the limits ask for, and the byte count never goes below zero |
| MemoryLog.TASWMemoryLog.ApplyLimits | ASWLog/ASWLog_MemoryLog.cpp:56-63 | New limits keep the longest end that fits them |
| MemoryLog.TASWMemoryLog.Clear | ASWLog/ASWLog_MemoryLog.cpp:66-71 | No lines, and the sequence numbers go on |
| MemoryLog.TASWMemoryLog.GetLinesSince | ASWLog/ASWLog_MemoryLog.cpp:114-134 | The kept lines from the sequence number on, and how many before them are gone |
| MemoryLog.EachLineOnce | ASWLog/ASWLog_MemoryLog.cpp:114-134 | A viewer that polls with the next sequence number is told of each line exactly once and in order: its text if that poll found it kept, and that it missed it if not |
| MemoryLog.EveryViewerIsTold | ASWLog/ASWLog_MemoryLog.cpp:56-184 | Over any run of writes, clears, changes of the limits and polls by any number of viewers: each viewer has been told of the lines up to its last poll, each once and in order, and got every one of them that is still kept |
| MemoryLog.DoSteps | ASWLog/ASWLog_MemoryLog.cpp:56-184 | The log driven through any such run holds the model's lines and limits, and each viewer was told just that |
| MemoryLog.FittingIsLongest | ASWLog/ASWLog_MemoryLog.cpp:84-91 | What is kept fits, and no longer end of the lines would |
| MemoryLog.LastIsKept | ASWLog/ASWLog_MemoryLog.cpp:162-184 | A line within the byte limit is never dropped as the newest |
| MemoryLog.CutToFit | ASWLog/ASWLog_Utils.cpp:842-858 | The text, or its longest start before a character's first byte with the marker after it, within the limit |
| MemoryLog.CutKeepsMost | ASWLog/ASWLog_Utils.cpp:842-858 | A text over the limit is its start up to the last place that leaves room for " [cut]" (if the limit has that room) and isn't inside a character, and then that marker |
| MemoryLog.CutIsWellFormed | ASWLog/ASWLog_Utils.cpp:842-858 | Cutting keeps well-formed text well-formed |
| Limiter.OnceAllowsOne | ASWLog/ASWLog_Limiter.cpp:57-59 | In every interleaving exactly one call is allowed |
| Limiter.EveryNBeforeWrap | ASWLog/ASWLog_Limiter.cpp:61-71 | Of k calls, k divided by n and rounded up are allowed, as long as the 64-bit count doesn't wrap |
| Limiter.EveryNReports | ASWLog/ASWLog_Limiter.cpp:61-71 | The n - 1 refused calls an allowed call reports are those since the allowed call before it |
| Limiter.EveryNForEver | ASWLog/ASWLog_Limiter.cpp:61-71 | That holds for every k if and only if n divides 2 to the 64 |
| Limiter.EveryIntervalHolds | ASWLog/ASWLog_Limiter.cpp:73-94 | In every interleaving, an allowed call is at least one interval after the one before it, unless that interval ends after the clock (with an interval of zero or less, every call is allowed); every call that isn't under way was allowed or counted as refused, and not both; and each refused call is in exactly one report or still to be reported |
| Limiter.AllowedExactly | ASWLog/ASWLog_Limiter.cpp:80-93 | In every interleaving, a call is allowed if and only if, at its load, there was no allowed call before or the interval since the last one, cut at the clock's end, was over, and no other call was allowed between its load and its exchange, or that interval ends at or after the clock's end; otherwise it is refused |
| Limiter.FirstIsAllowed | ASWLog/ASWLog_Limiter.cpp:80-93 | The first call to exchange on a new limiter is allowed, at any tick |
| Limiter.AllowedInBetween | ASWLog/ASWLog_Limiter.cpp:80-93 | A run in which, at the clock's end, a call is allowed though another one was allowed between its load and its exchange |
| Limiter.NextAllowed | ASWLog/ASWLog_Limiter.cpp:80-82 | The next allowed time is the sum or the clock's end, without a 64-bit overflow on the way |
| Limiter.SpacingEndsWithTheClock | ASWLog/ASWLog_Limiter.cpp:80-88 | With any interval, a run from a new limiter in which two calls at the last tick are both allowed |
| Limiter.AtClockEnd | ASWLog/ASWLog_Limiter.cpp:80-88 | Once an interval ends after the clock, every call at the last tick is allowed |
| Backups.DeleteOldBackups | ASWLog/ASWLog_FileLog.cpp:537-580 | Keeps exactly the longest newest-first start of the backups that meets the age, count and byte rules together, without a wrap of the bytes left |
| Backups.BackupIsRecognised | ASWLog/ASWLog_FileLog.cpp:142-171 | A name rotation makes is recognised as a backup of its log if and only if the reason has no dot |
| Backups.OneStem | ASWLog/ASWLog_FileLog.cpp:137-154 | No file name is a backup of two different logs |
| Backups.SuffixesDiffer | ASWLog/ASWLog_FileLog.cpp:90-111 | Different suffixes are different names |
| Backups.FindFreeBackupPath | ASWLog/ASWLog_FileLog.cpp:90-111 | The first name that isn't taken, recognised as a backup if and only if the reason has no dot; none if and only if all are taken or one before it can't be checked |
| Backups.TimeLabelIsStamp | ASWLog/ASWLog_FileLog.cpp:222-230 | The label cut from an ISO 8601 time is one a backup's name can have |
| Backups.LabelHasNoDot | ASWLog/ASWLog_FileLog.cpp:158-171 | A time label has no dot |
| Backups.LabelMeans | ASWLog/ASWLog_FileLog.cpp:158-171 | A text is a time label if and only if it is "YYYY-MM-DD" or "YYYY-MM-DD_HHMMSS_mmm", with or without "_" and digits behind it |
| Backups.NameMeans | ASWLog/ASWLog_FileLog.cpp:142-154 | A file name is a backup's if and only if it is the stem, a reason without a dot, a time label and "bak", with dots between them |

## Left out

- AsyncTheorems.EveryRunWithOneCapacity: excludes a changing capacity and logging on the worker, whose entries skip the wait for room
- AsyncTheorems.EveryRunCanFinish: excludes the two steps of `Strands`; with them it is false (`HangsWhenResumedLate`), and it says that the worker can write everything, not that the scheduler lets it
- AsyncTheorems.EveryRunIsServedExactly: for the moments at which no thread holds the worker's lock; a thread that does may be about to replace the worker
- AsyncThreads.RunKeepsOrder: entries logged on the worker skip all waits, so the order of the worker's own entries is not claimed
- AsyncDelivery.WaitingCallReturns: "flushed" is the stream's flush having been called; a flush or sync that fails is not modelled
- AsyncDelivery.DeliverOk: the output may refuse an entry, but a write that fails half-way and its retry delay are not modelled
- AsyncRun: sequence numbers and counts are unbounded; exceptions and out-of-memory paths, startup and shutdown lines, and the crash path through the queue are left out; whether a file opens, and whether another attempt at opening or renaming it is due, is up to the environment
- Limiter.EveryIntervalHolds: the refused count is unbounded here and 64 bits in the code
- MemoryLog.TASWMemoryLog.GetLinesSince: sequence numbers are unbounded here and 64 bits in the code
- CrashLine.LineFits: the ISO 8601 text, the level's name and a number's text come from code that is not modelled; of them it assumes only their length (1 to 40, 1 to 8, and up to 32 bytes) and that they need no escape, or are JSON
- CrashText.TCrashText.AppendDecimal: the digits are those of a mathematical number; the conversion itself is library code
- CrashList.TCrashRegistry.Visit: the list's lock and the polling for it are left out
- Utf16.ToUTF16: `wchar_t` of 32 bits is left out; it needs no pairs
- PendingEntry.TASWPendingEntry.ReplaceFields: that replaced copies are kept until the entry ends, for a visit under way, is left out
- Fields.ForEachLogField: the visitor is modelled by the sequence of fields it is called with
- Filtering.AskedIsWritten: a tree is a value, so a logger that appears twice, and levels that change between the check and the write, are not modelled; neither is a hook
- Backtrace.TLogger.WriteOrKeep: one thread at a time; a hook before it is left out
- Backups.DeleteOldBackups: listing the folder and a deletion that fails are left out; the list is given, newest first
- Backups.FindFreeBackupPath: the file system doesn't change meanwhile; the race with another process for a free name is left out
- Pattern.ParseUndoesPrint: formatting an entry with the parsed parts is left out; it only appends
- Category level rules, config and environment parsing, and the tables of names: easy members
- Real files, consoles, syslog, the Event Log and debugger output: only the abstract output is modelled
- Signal handlers, `std::terminate` and their installation: platform behaviour
