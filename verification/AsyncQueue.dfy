/** The queue of an asynchronous text logger: the fields guarded by its queue lock, and one operation per critical
    section. */
module AsyncQueue {

  const OFF: nat := 6 // Level::Off, above every severity
  const WARN: nat := 3

  /** One call of Write() that passed the gates: the calling thread, how many calls that
      thread made before, the level, and whether its line ends with the line ending. */
  datatype Record = Record(thread: nat, serial: nat, level: nat, endsLine: bool)

  /** A record with what the config snapshot says about queuing it. */
  datatype Draft = Draft(record: Record, mustFlush: bool, mayDrop: bool, capacity: nat)

  datatype Entry = Entry(sequence: nat, record: Record, mustFlush: bool)

  datatype Queue = Queue(
    entries: seq<Entry>,
    lastQueued: nat,
    lastWritten: nat,
    dropped: nat,
    isAsyncActive: bool,
    isAsync: bool,
    isStopping: bool,
    isStoppingItself: bool,
    interval: int)

  datatype Admission =
    | Dropped
    | NoRoom            // the caller waits for room
    | Switched          // async is off and nothing is queued: the caller writes the entry itself
    | Drains            // async is off, but entries are still queued: the caller waits for them first
    | Accepted(entry: Entry)

  /** The worker's duties, read from the config while the logger is initialized. */
  datatype Duty = Duty(interval: int, isAsync: bool) {
    predicate IsWanted() { interval > 0 || isAsync }
  }

  datatype Decision = Kept | Stops | NothingToDo | Starts

  const EMPTY_QUEUE := Queue([], 0, 0, 0, false, false, false, false, 0)

  function SetActive(q: Queue, isActive: bool): Queue {
    q.(isAsyncActive := isActive,
       isAsync := if isActive || q.lastWritten >= q.lastQueued then isActive else q.isAsync)
  }

  predicate HasRoom(q: Queue, draft: Draft) {
    !q.isAsyncActive || |q.entries| < draft.capacity
  }

  function Push(q: Queue, draft: Draft): (Entry, Queue) {
    var entry := Entry(q.lastQueued + 1, draft.record, draft.mustFlush);
    (entry, q.(entries := q.entries + [entry], lastQueued := entry.sequence))
  }

  /** Past the wait for room: queues the entry, or sends the caller to the direct write. */
  function Admit(q: Queue, draft: Draft): (Admission, Queue) {
    if q.isAsyncActive then
      var (entry, pushed) := Push(q, draft);
      (Accepted(entry), pushed)
    else if q.lastWritten >= q.lastQueued then (Switched, q)
    else (Drains, q)
  }

  /** The first critical section of QueueRecord() on a thread that isn't the worker. */
  function Enter(q: Queue, draft: Draft): (Admission, Queue) {
    if draft.mayDrop && q.isAsyncActive && |q.entries| >= draft.capacity then
      (Dropped, q.(dropped := q.dropped + 1))
    else if HasRoom(q, draft) then Admit(q, draft)
    else (NoRoom, q)
  }

  predicate CanTake(q: Queue, isWakeDue: bool) {
    q.isStopping || (isWakeDue && q.interval > 0) || q.entries != [] || q.dropped > 0
  }

  function Take(q: Queue): Queue {
    q.(entries := [], dropped := 0)
  }

  function MarkWritten(q: Queue, batch: seq<Entry>): Queue {
    var written := if batch != [] && batch[|batch| - 1].sequence > q.lastWritten
                   then batch[|batch| - 1].sequence else q.lastWritten;
    q.(lastWritten := written,
       isAsync := if !q.isAsyncActive && written >= q.lastQueued then false else q.isAsync)
  }

  /** The deciding section of UpdateWorker(). */
  function Decide(q: Queue, isJoinable: bool, duty: Duty): (Decision, Queue) {
    if isJoinable && !q.isStopping && duty.IsWanted() then
      (Kept, SetActive(q.(interval := duty.interval), duty.isAsync))
    else if isJoinable then
      (Stops, SetActive(q.(isStopping := true, isStoppingItself := false), false))
    else if !duty.IsWanted() then (NothingToDo, q)
    else (Starts, q.(isStopping := false, interval := duty.interval))
  }

  /** UpdateWorkerFromWorker(): the worker can only tell itself to stop, or undo its own stop. */
  function DecideOnWorker(q: Queue, duty: Duty): Queue {
    if duty.IsWanted() then
      var resumed := if q.isStopping && q.isStoppingItself then q.(isStopping := false) else q;
      if resumed.isStopping then resumed
      else SetActive(resumed.(interval := duty.interval), duty.isAsync)
    else if !q.isStopping then
      SetActive(q.(isStopping := true, isStoppingItself := true), false)
    else q
  }
}
