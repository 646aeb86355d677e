/** What holds after every run of the asynchronous logger, from a new logger with any configuration. */
module AsyncTheorems {
  import opened AsyncQueue
  import opened AsyncOutput
  import opened AsyncRun
  import opened AsyncOrder
  import opened AsyncThreads
  import opened AsyncDelivery
  import opened AsyncLedger
  import opened AsyncDrops
  import opened AsyncCalls
  import opened AsyncLiveness
  import opened AsyncStranded
  import opened AsyncHangs

  /** Every interleaving: the queue invariant, both orders, the accounts, and nothing held back that a caller waited for. */
  lemma EveryRun(config: Config, steps: seq<Step>)
    requires IsRun(Initial(config), steps)
    ensures var s := After(Initial(config), steps);
            && Delivered(s)
            && s.queue.isAsync == (s.queue.isAsyncActive || s.queue.lastWritten < s.queue.lastQueued)
            && InFlight(s.worker) + s.queue.entries == s.queued[s.queue.lastWritten..]
            && (forall i :: 0 <= i < |s.queued| ==> s.queued[i].sequence == i + 1)
            && WrittenEntries(s.output.lines) <= s.queued
            && LinesInOrder(s.output.lines)
            && Accounted(s)
            && Balanced(s, ANYWHERE)
            && OneUpdater(s)
  {
    hide Delivered, Accounted, Balanced, Ordered, Counters, WrittenEntries, LinesInOrder, OneUpdater, IsRun, After;
    InitialHolds(config);
    RunDelivers(Initial(config), steps);
    RunAccounted(Initial(config), steps);
    RunBalanced(Initial(config), steps);
    DeliveredMeans(After(Initial(config), steps));
  }

  lemma InitialHolds(config: Config)
    ensures Delivered(Initial(config)) && Ordered(Initial(config)) && Accounted(Initial(config))
    ensures Balanced(Initial(config), ANYWHERE)
  {
    InitialDelivers(config);
  }

  lemma DeliveredMeans(s: State)
    requires Delivered(s)
    ensures s.queue.isAsync == (s.queue.isAsyncActive || s.queue.lastWritten < s.queue.lastQueued)
    ensures InFlight(s.worker) + s.queue.entries == s.queued[s.queue.lastWritten..]
    ensures forall i :: 0 <= i < |s.queued| ==> s.queued[i].sequence == i + 1
    ensures WrittenEntries(s.output.lines) <= s.queued && LinesInOrder(s.output.lines) && OneUpdater(s)
  {
    hide WrittenEntries, LinesInOrder;
  }

  /** With a fixed capacity and no logging on the worker, each report stands where its entries were dropped. */
  lemma EveryRunWithOneCapacity(config: Config, steps: seq<Step>)
    requires IsRun(Initial(config), steps)
    requires forall i :: 0 <= i < |steps| ==> KeepsCapacity(steps[i], CapacityOf(config))
    ensures var s, c := After(Initial(config), steps), CapacityOf(config);
            && |s.queue.entries| <= c
            && (s.queue.dropped > 0 ==> |s.queue.entries| == c)
            && (forall at: nat :: Balanced(s, at))
            && ReportsInPlace(s.output.lines)
            && DirectAfterReports(s)
  {
    InitialReportsDrops(config);
    RunReportsDrops(Initial(config), steps, CapacityOf(config));
  }

  /** After any run without the two steps of Strands(), seven steps of the worker write everything and end every wait. */
  lemma EveryRunCanFinish(config: Config, steps: seq<Step>) returns (more: seq<Step>, s': State)
    requires IsRun(Initial(config), steps) && NeverStrands(Initial(config), steps)
    ensures |more| <= 7 && (forall i :: 0 <= i < |more| ==> IsWorkerStep(more[i]))
    ensures var s := After(Initial(config), steps);
            && Reaches(s, more, s') && s'.places == s.places
            && s'.queue.lastWritten == s.queue.lastQueued == s'.queue.lastQueued
            && forall t :: CanGoOn(s', t)
  {
    hide Delivered, Reaches, Served, WaitsEnd, CanGoOn;
    InitialServed(config);
    RunDelivers(Initial(config), steps);
    RunServed(Initial(config), steps);
    RunWaitsEnd(Initial(config), steps);
    more, s' := WorkerFreesEveryone(After(Initial(config), steps));
  }

  lemma InitialServed(config: Config)
    ensures Delivered(Initial(config)) && Served(Initial(config)) && WaitsEnd(Initial(config)) && OneUpdater(Initial(config))
    ensures StartsClean(Initial(config))
  {
    InitialDelivers(config);
  }

  /** In particular if no callback on the worker stops or restarts it. */
  lemma EveryQuietRunCanFinish(config: Config, steps: seq<Step>) returns (more: seq<Step>, s': State)
    requires IsRun(Initial(config), steps) && forall i :: 0 <= i < |steps| ==> !steps[i].WorkerUpdates?
    ensures |more| <= 7 && Reaches(After(Initial(config), steps), more, s') && forall t :: CanGoOn(s', t)
  {
    InitialServed(config);
    QuietRunStrandsNobody(Initial(config), steps);
    more, s' := EveryRunCanFinish(config, steps);
  }

  /** After any run that leaves nobody in the middle of updating the worker: no entry can be abandoned from there without
      a step that strands one, exactly if the state is served; and every run without such a step leads to such a state. */
  lemma EveryRunIsServedExactly(config: Config, steps: seq<Step>)
    requires IsRun(Initial(config), steps) && After(Initial(config), steps).updater.Free?
    ensures var s := After(Initial(config), steps);
            && (NeverStrands(Initial(config), steps) ==> Served(s))
            && (Served(s) <==> forall more | IsRun(s, more) && NeverStrands(s, more) :: !Abandoned(After(s, more)))
  {
    hide Counters, OneUpdater, Served, Abandoned;
    InitialServed(config);
    RunServed(Initial(config), steps);
    EveryRun(config, steps);
    assert Counters(After(Initial(config), steps)) && OneUpdater(After(Initial(config), steps)) by { DeliveredCounts(config, steps); }
    ServedExactly(After(Initial(config), steps));
  }

  lemma DeliveredCounts(config: Config, steps: seq<Step>)
    requires IsRun(Initial(config), steps) && Delivered(After(Initial(config), steps))
    ensures Counters(After(Initial(config), steps)) && OneUpdater(After(Initial(config), steps))
  {
  }

  /** A call of Write() that never returns: whatever any thread does after this run, thread 2 still waits, and nothing more
      is written. */
  lemma WriteNeverReturns(more: seq<Step>) returns (s: State)
    ensures Reaches(Initial(DEFAULT), ResumedLate(), s) && Hung(s)
    ensures IsRun(s, more) ==>
              PlaceOf(After(s, more), 2) == PlaceOf(s, 2) && After(s, more).queue.lastWritten == s.queue.lastWritten
  {
    hide OneUpdater, TakenForRunning;
    s := HangsWhenResumedLate();
    EveryRun(DEFAULT, ResumedLate());
    assert OneUpdater(s);
    if IsRun(s, more) {
      NothingHelps(s, more);
    }
  }
}
