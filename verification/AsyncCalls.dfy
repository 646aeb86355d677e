/** Whole calls as runs of steps, with nothing in between, from which runs with a given outcome are put together. */
module AsyncCalls {
  import opened AsyncQueue
  import opened AsyncOutput
  import opened AsyncRun
  import opened AsyncOrder

  ghost predicate Reaches(s: State, steps: seq<Step>, s': State) {
    IsRun(s, steps) && After(s, steps) == s'
  }

  lemma Reached(s: State, steps: seq<Step>, s': State)
    requires Reaches(s, steps, s')
    ensures IsRun(s, steps) && After(s, steps) == s'
  {
  }

  lemma {:induction false} RunJoins(s: State, first: seq<Step>, m: State, rest: seq<Step>, s': State)
    requires Reaches(s, first, m) && Reaches(m, rest, s')
    ensures Reaches(s, first + rest, s')
    decreases |first|
  {
    hide Next, Can;
    if first == [] {
      assert first + rest == rest;
    } else {
      RunJoins(Next(s, first[0]), first[1..], m, rest, s');
      assert (first + rest)[1..] == first[1..] + rest;
    }
  }

  lemma Then(s: State, steps: seq<Step>, m: State, step: Step)
    requires Reaches(s, steps, m) && Can(m, step)
    ensures Reaches(s, steps + [step], Next(m, step))
  {
    hide Next, Can;
    var rest := [step];
    assert rest[1..] == [];
    assert Reaches(Next(m, step), [], Next(m, step));
    assert Reaches(m, rest, Next(m, step));
    RunJoins(s, steps, m, rest, Next(m, step));
  }

  lemma One(s: State, step: Step)
    requires Can(s, step)
    ensures Reaches(s, [step], Next(s, step))
  {
    hide Next, Can;
    assert [] + [step] == [step];
    Then(s, [], s, step);
  }

  lemma ControlGoes(s: State, step: Step)
    requires ControlCan(s, step)
    ensures Can(s, step) && Next(s, step) == ControlNext(s, step)
  {
  }

  lemma WorkerGoes(s: State, step: Step)
    requires WorkerCan(s, step)
    ensures Can(s, step) && Next(s, step) == WorkerNext(s, step)
  {
  }

  /** The places of all threads but t. */
  ghost predicate OthersStay(s: State, s': State, t: nat) {
    forall u :: u != t ==> PlaceOf(s', u) == PlaceOf(s, u)
  }

  /** The configuration of a new logger. */
  const DEFAULT := Config(8192, false, 4, false, EveryWrite, 1000, 4, OFF, false)

  predicate WantsWorker(config: Config) {
    MakeDuty(false, true, config).IsWanted()
  }

  const CLOSES := Env(false, false, 0, false, false)
  const OPENS := Env(true, false, 0, false, false)

  /** Open() or Initialize() on thread t, up to its decision about the worker. */
  function Opening(t: nat, op: Op): seq<Step> {
    [Begin(t, op), Perform(t, OPENS), LockWorker(t)]
  }

  lemma OpensAndLocks(s: State, t: nat, op: Op) returns (s': State)
    requires t != WORKER && PlaceOf(s, t).Idle? && s.updater.Free? && !WaitsFirst(op)
    ensures Reaches(s, Opening(t, op), s')
    ensures s' == PerformOp(s, op, OPENS).(places := s'.places, updater := HeldBy(t))
    ensures PlaceOf(s', t) == Decides(false) && OthersStay(s, s', t)
  {
    hide Reaches, IsRun, After, CallerCan, CallerNext, WorkerCan, WorkerNext;
    var s1 := ControlNext(s, Begin(t, op));
    ControlGoes(s, Begin(t, op));
    One(s, Begin(t, op));
    var s2 := ControlNext(s1, Perform(t, OPENS));
    ControlGoes(s1, Perform(t, OPENS));
    Then(s, [Begin(t, op)], s1, Perform(t, OPENS));
    s' := ControlNext(s2, LockWorker(t));
    ControlGoes(s2, LockWorker(t));
    Then(s, [Begin(t, op)] + [Perform(t, OPENS)], s2, LockWorker(t));
    assert [Begin(t, op)] + [Perform(t, OPENS)] + [LockWorker(t)] == Opening(t, op);
  }

  function DirectCall(t: nat, level: nat, endsLine: bool, env: Env): seq<Step> {
    [Call(t, level, endsLine), ReadFlag(t), WriteDirect(t, env)]
  }

  /** A call that finds the logger synchronous writes its entry itself. */
  lemma WritesOne(s: State, t: nat, level: nat, endsLine: bool, env: Env) returns (s': State)
    requires t != WORKER && PlaceOf(s, t).Idle? && level < OFF && !s.queue.isAsync
    ensures Reaches(s, DirectCall(t, level, endsLine, env), s')
    ensures var what := Direct(Record(t, CallsOf(s, t), level, endsLine), |s.drops|);
      s' == s.(output := Deliver(s.output, s.config, env, what, level, endsLine, false), places := s'.places, calls := s'.calls)
    ensures PlaceOf(s', t) == Idle && OthersStay(s, s', t)
  {
    hide Deliver, Reaches, IsRun, After, ControlCan, ControlNext, WorkerCan, WorkerNext;
    var s1 := Next(s, Call(t, level, endsLine));
    One(s, Call(t, level, endsLine));
    var s2 := Next(s1, ReadFlag(t));
    Then(s, [Call(t, level, endsLine)], s1, ReadFlag(t));
    s' := Next(s2, WriteDirect(t, env));
    Then(s, [Call(t, level, endsLine)] + [ReadFlag(t)], s2, WriteDirect(t, env));
    assert [Call(t, level, endsLine)] + [ReadFlag(t)] + [WriteDirect(t, env)] == DirectCall(t, level, endsLine, env);
  }

  function QueuedCall(t: nat, level: nat, endsLine: bool): seq<Step> {
    [Call(t, level, endsLine), ReadFlag(t), Format(t), EnterQueue(t)]
  }

  /** The first three steps of a call, up to the queue's lock. */
  lemma CallEnters(s: State, t: nat, level: nat, endsLine: bool) returns (s': State)
    requires t != WORKER && PlaceOf(s, t).Idle? && level < OFF && s.queue.isAsync
    ensures Reaches(s, [Call(t, level, endsLine), ReadFlag(t), Format(t)], s')
    ensures s' == s.(places := s'.places, calls := s'.calls)
    ensures PlaceOf(s', t) == Enters(MakeDraft(Record(t, CallsOf(s, t), level, endsLine), s.config)) && OthersStay(s, s', t)
  {
    hide Reaches, IsRun, After, ControlCan, ControlNext, WorkerCan, WorkerNext;
    var s1 := Next(s, Call(t, level, endsLine));
    One(s, Call(t, level, endsLine));
    var s2 := Next(s1, ReadFlag(t));
    Then(s, [Call(t, level, endsLine)], s1, ReadFlag(t));
    s' := Next(s2, Format(t));
    Then(s, [Call(t, level, endsLine)] + [ReadFlag(t)], s2, Format(t));
    assert [Call(t, level, endsLine)] + [ReadFlag(t)] + [Format(t)] == [Call(t, level, endsLine), ReadFlag(t), Format(t)];
  }

  /** A call that finds async on and the queue empty queues its entry and, at or above WaitAtLevel, waits for it. */
  lemma QueuesOne(s: State, t: nat, level: nat, endsLine: bool) returns (s': State)
    requires t != WORKER && PlaceOf(s, t).Idle? && level < OFF
    requires s.queue.isAsync && s.queue.isAsyncActive && s.queue.entries == []
    ensures Reaches(s, QueuedCall(t, level, endsLine), s')
    ensures var entry := Entry(s.queue.lastQueued + 1, Record(t, CallsOf(s, t), level, endsLine), level >= s.config.waitAtLevel);
            && s' == s.(queue := s.queue.(entries := [entry], lastQueued := entry.sequence), queued := s.queued + [entry],
                        places := s'.places, calls := s'.calls)
            && PlaceOf(s', t) == (if entry.mustFlush then AwaitsEntry(entry) else Idle)
    ensures OthersStay(s, s', t)
  {
    hide Reaches, IsRun, After, ControlCan, ControlNext, WorkerCan, WorkerNext;
    var m := CallEnters(s, t, level, endsLine);
    s' := Next(m, EnterQueue(t));
    Then(s, [Call(t, level, endsLine), ReadFlag(t), Format(t)], m, EnterQueue(t));
    assert [Call(t, level, endsLine), ReadFlag(t), Format(t)] + [EnterQueue(t)] == QueuedCall(t, level, endsLine);
  }
}
