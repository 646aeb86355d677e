/** Every record is accounted for exactly once: in its call, queued, dropped or written directly. */
module AsyncLedger {
  import opened AsyncQueue
  import opened AsyncOutput
  import opened AsyncRun
  import opened AsyncOrder
  import opened AsyncThreads

  // ---- Each record in one place -------------------------------------------------

  predicate Is(record: Record, t: nat, k: nat) {
    record.thread == t && record.serial == k
  }

  function TimesQueued(queued: seq<Entry>, t: nat, k: nat): nat {
    if queued == [] then 0
    else TimesQueued(queued[..|queued| - 1], t, k) + if Is(queued[|queued| - 1].record, t, k) then 1 else 0
  }

  function TimesDropped(drops: seq<Drop>, t: nat, k: nat): nat {
    if drops == [] then 0
    else TimesDropped(drops[..|drops| - 1], t, k) + if Is(drops[|drops| - 1].record, t, k) then 1 else 0
  }

  function TimesDirect(lines: seq<Line>, t: nat, k: nat): nat {
    if lines == [] then 0
    else
      var last := lines[|lines| - 1].what;
      TimesDirect(lines[..|lines| - 1], t, k) + if last.Direct? && Is(last.record, t, k) then 1 else 0
  }

  function TimesCarried(s: State, t: nat, k: nat): nat {
    var c := CarriedBy(PlaceOf(s, t));
    if c.Carries? && Is(c.record, t, k) then 1 else 0
  }

  /** The k-th record of thread t is in exactly one place once its call began: still in the call, queued, dropped, or
      written directly. */
  ghost predicate AccountedOnce(s: State, t: nat, k: nat) {
    TimesCarried(s, t, k) + TimesQueued(s.queued, t, k) + TimesDropped(s.drops, t, k) + TimesDirect(s.output.lines, t, k)
      == if k < CallsOf(s, t) then 1 else 0
  }

  ghost predicate Accounted(s: State) {
    forall t: nat, k: nat :: t != WORKER ==> AccountedOnce(s, t, k)
  }

  lemma SnocCounts(queued: seq<Entry>, entry: Entry, drops: seq<Drop>, drop: Drop, t: nat, k: nat)
    ensures TimesQueued(queued + [entry], t, k) == TimesQueued(queued, t, k) + if Is(entry.record, t, k) then 1 else 0
    ensures TimesDropped(drops + [drop], t, k) == TimesDropped(drops, t, k) + if Is(drop.record, t, k) then 1 else 0
  {
    assert (queued + [entry])[..|queued|] == queued && (drops + [drop])[..|drops|] == drops;
  }

  lemma DirectSnoc(before: seq<Line>, after: seq<Line>, t: nat, k: nat)
    requires |after| == |before| + 1 && after[..|before|] == before
    ensures TimesDirect(after, t, k)
         == TimesDirect(before, t, k) + var last := after[|before|].what; if last.Direct? && Is(last.record, t, k) then 1 else 0
  {
  }

  lemma {:induction false} NoDirectAppended(before: seq<Line>, after: seq<Line>, t: nat, k: nat)
    requires |before| <= |after| && after[..|before|] == before
    requires forall i :: |before| <= i < |after| ==> !after[i].what.Direct?
    ensures TimesDirect(after, t, k) == TimesDirect(before, t, k)
    decreases |after|
  {
    if |after| == |before| {
      assert after == before;
    } else {
      var shorter := after[..|after| - 1];
      assert shorter[..|before|] == before;
      NoDirectAppended(before, shorter, t, k);
    }
  }

  lemma BatchAccounted(s: State, s': State, envs: seq<Env>, dropEnv: Env)
    requires Accounted(s) && s.worker.Running? && s.worker.at.Taken? && |envs| == |s.worker.at.batch|
    requires s' == WriteTaken(s, envs, dropEnv)
    ensures Accounted(s')
  {
    var at := s.worker.at;
    WriteQueuedShape(s.output, s.config, envs, dropEnv, at.batch, at.count, at.upTo);
    forall t: nat, k: nat | t != WORKER ensures AccountedOnce(s', t, k) {
      NoDirectAppended(s.output.lines, s'.output.lines, t, k);
      assert PlaceOf(s', t) == PlaceOf(s, t) && AccountedOnce(s, t, k);
    }
  }

  lemma WriteDirectAccounted(s: State, s': State, t: nat, env: Env)
    requires Accounted(s) && OwnRecords(s)
    requires CallerCan(s, WriteDirect(t, env)) && s' == CallerNext(s, WriteDirect(t, env))
    ensures Accounted(s')
  {
    var record := PlaceOf(s, t).record;
    var what := Direct(record, PlaceOf(s, t).dropsBefore);
    DeliverShape(s.output, s.config, env, what, record.level, record.endsLine, false);
    forall u: nat, k: nat | u != WORKER ensures AccountedOnce(s', u, k) {
      assert AccountedOnce(s, u, k);
      assert u != t ==> PlaceOf(s', u) == PlaceOf(s, u);
      DirectSnoc(s.output.lines, s'.output.lines, u, k);
    }
  }

  /** Thread t moved without its record leaving the call. */
  lemma MoveAccounted(s: State, s': State, t: nat)
    requires Accounted(s) && s'.queued == s.queued && s'.drops == s.drops && s'.output.lines == s.output.lines
    requires s'.calls == s.calls && CarriedBy(PlaceOf(s', t)) == CarriedBy(PlaceOf(s, t))
    requires forall u :: u != t ==> PlaceOf(s', u) == PlaceOf(s, u)
    ensures Accounted(s')
  {
    forall u: nat, k: nat | u != WORKER ensures AccountedOnce(s', u, k) {
      assert AccountedOnce(s, u, k);
      assert u != t ==> PlaceOf(s', u) == PlaceOf(s, u);
    }
  }

  /** The record thread t carried was queued or dropped. */
  lemma LeftCallAccounted(s: State, s': State, record: Record)
    requires Accounted(s) && CarriedBy(PlaceOf(s, record.thread)) == Carries(record)
    requires CarriedBy(PlaceOf(s', record.thread)).Nothing? && s'.calls == s.calls && s'.output == s.output
    requires forall u :: u != record.thread ==> PlaceOf(s', u) == PlaceOf(s, u)
    requires forall u: nat, k: nat ::
      TimesQueued(s'.queued, u, k) + TimesDropped(s'.drops, u, k)
        == TimesQueued(s.queued, u, k) + TimesDropped(s.drops, u, k) + if Is(record, u, k) then 1 else 0
    ensures Accounted(s')
  {
    forall u: nat, k: nat | u != WORKER ensures AccountedOnce(s', u, k) {
      assert AccountedOnce(s, u, k);
      assert u != record.thread ==> PlaceOf(s', u) == PlaceOf(s, u);
    }
  }

  lemma AdmittedAccounted(s: State, s': State, t: nat, draft: Draft, admission: Admission, queue: Queue)
    requires Accounted(s) && s' == Admitted(s, t, draft, admission, queue)
    requires CarriedBy(PlaceOf(s, t)) == Carries(draft.record) && draft.record.thread == t
    requires admission.Accepted? ==> admission.entry.record == draft.record
    ensures Accounted(s')
  {
    if admission.Accepted? || admission.Dropped? {
      forall u: nat, k: nat
        ensures TimesQueued(s'.queued, u, k) + TimesDropped(s'.drops, u, k)
             == TimesQueued(s.queued, u, k) + TimesDropped(s.drops, u, k) + if Is(draft.record, u, k) then 1 else 0
      {
        var entry := if admission.Accepted? then admission.entry else Entry(0, draft.record, false);
        SnocCounts(s.queued, entry, s.drops, Drop(draft.record, s.queue.lastQueued), u, k);
      }
      LeftCallAccounted(s, s', draft.record);
    } else {
      MoveAccounted(s, s', t);
    }
  }

  lemma CallAccounted(s: State, s': State, t: nat, level: nat, endsLine: bool)
    requires Accounted(s) && OwnRecords(s)
    requires CallerCan(s, Call(t, level, endsLine)) && s' == CallerNext(s, Call(t, level, endsLine))
    ensures Accounted(s')
  {
    forall u: nat, k: nat | u != WORKER ensures AccountedOnce(s', u, k) {
      assert AccountedOnce(s, u, k);
      assert u != t ==> PlaceOf(s', u) == PlaceOf(s, u);
    }
  }

  lemma CarriesOn(s: State, step: Step)
    requires CallerCan(s, step) && !IsSection(step) && !step.WriteDirect? && !step.Call?
    ensures CarriedBy(PlaceOf(CallerNext(s, step), step.t)) == CarriedBy(PlaceOf(s, step.t))
    ensures CallerNext(s, step).calls == s.calls
  {
  }

  lemma CallerAccounted(s: State, s': State, step: Step)
    requires Accounted(s) && OwnRecords(s) && CallerCan(s, step) && s' == CallerNext(s, step)
    ensures Accounted(s')
  {
    hide CallerNext, Admitted, Accounted;
    CallerMoves(s, step);
    if IsSection(step) {
      SectionAdmits(s, step);
      var draft := DraftOf(PlaceOf(s, step.t));
      var (admission, queue) := SectionOf(s.queue, draft, step);
      AdmittedAccounted(s, s', step.t, draft, admission, queue);
    } else if step.WriteDirect? {
      WriteDirectAccounted(s, s', step.t, step.env);
    } else if step.Call? {
      CallAccounted(s, s', step.t, step.level, step.endsLine);
    } else {
      OthersAreQuiet(s, step);
      CarriesOn(s, step);
      MoveAccounted(s, s', step.t);
    }
  }

  /** What the worker logs itself is nobody else's record. */
  lemma OwnLineAccounted(s: State, s': State, line: Line)
    requires Accounted(s) && line.what.Direct? && line.what.record.thread == WORKER
    requires s' == s.(output := s'.output, calls := s'.calls) && s'.output.lines == s.output.lines + [line]
    requires forall u :: u != WORKER ==> CallsOf(s', u) == CallsOf(s, u)
    ensures Accounted(s')
  {
    forall u: nat, k: nat | u != WORKER ensures AccountedOnce(s', u, k) {
      assert AccountedOnce(s, u, k) && PlaceOf(s', u) == PlaceOf(s, u);
      DirectSnoc(s.output.lines, s'.output.lines, u, k);
    }
  }

  lemma OwnEntryAccounted(s: State, s': State, entry: Entry)
    requires Accounted(s) && entry.record.thread == WORKER
    requires s' == s.(queue := s'.queue, queued := s.queued + [entry], calls := s'.calls)
    requires forall u :: u != WORKER ==> CallsOf(s', u) == CallsOf(s, u)
    ensures Accounted(s')
  {
    forall u: nat, k: nat | u != WORKER ensures AccountedOnce(s', u, k) {
      assert AccountedOnce(s, u, k) && PlaceOf(s', u) == PlaceOf(s, u);
      SnocCounts(s.queued, entry, [], Drop(entry.record, 0), u, k);
    }
  }

  lemma WorkerCallbackAccounted(s: State, s': State, step: Step)
    requires Accounted(s) && WorkerCan(s, step) && s' == WorkerNext(s, step) && (step.WorkerQueues? || step.WorkerLogs?)
    ensures Accounted(s')
  {
    hide Accounted, Deliver;
    if step.WorkerLogs? {
      WorkerDelivers(s, s', step.level, step.endsLine, step.env);
      OwnLineAccounted(s, s', s'.output.lines[|s.output.lines|]);
    } else {
      var record := Record(WORKER, CallsOf(s, WORKER), step.level, step.endsLine);
      OwnEntryAccounted(s, s', Entry(s.queue.lastQueued + 1, record, step.mustFlush));
    }
  }

  lemma StepAccounted(s: State, step: Step)
    requires Accounted(s) && Ordered(s) && Can(s, step)
    ensures Accounted(Next(s, step))
  {
    var s' := Next(s, step);
    if CallerCan(s, step) {
      CallerAccounted(s, s', step);
    } else if ControlCan(s, step) {
      ControlMoves(s, step);
      ControlCarriesNothing(s, s', step);
      ControlKeepsProgress(s, step);
      ControlKeepsDrops(s, s', step);
      MoveAccounted(s, s', step.t);
    } else if step.WorkerQueues? || step.WorkerLogs? {
      WorkerCallbackAccounted(s, s', step);
    } else if step.WorkerWrites? {
      BatchAccounted(s, s', step.envs, step.dropEnv);
    } else {
      QuietWorker(s, s', step);
      MoveAccounted(s, s', WORKER);
    }
  }

  lemma ControlKeepsDrops(s: State, s': State, step: Step)
    requires ControlCan(s, step) && s' == ControlNext(s, step)
    ensures s'.drops == s.drops
  {
    match step
    case Perform(t, env) => PerformKeepsLines(s, PlaceOf(s, t).op, env);
    case _ =>
  }

  lemma QuietWorker(s: State, s': State, step: Step)
    requires WorkerCan(s, step) && s' == WorkerNext(s, step)
    requires !step.WorkerQueues? && !step.WorkerLogs? && !step.WorkerWrites?
    ensures s'.queued == s.queued && s'.drops == s.drops && s'.output.lines == s.output.lines && s'.calls == s.calls
    ensures forall t :: PlaceOf(s', t) == PlaceOf(s, t)
  {
    match step
    case WorkerPerforms(op, env) => PerformKeepsLines(s, op, env);
    case _ =>
  }

  lemma {:induction false} RunAccounted(s: State, steps: seq<Step>)
    requires Accounted(s) && Ordered(s) && IsRun(s, steps)
    ensures Accounted(After(s, steps))
    decreases |steps|
  {
    if steps != [] {
      StepAccounted(s, steps[0]);
      StepKeepsOrder(s, steps[0]);
      RunAccounted(Next(s, steps[0]), steps[1..]);
    }
  }
}
