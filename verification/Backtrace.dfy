/** The backtrace: a ring of the newest entries below the minimum level, whose capacity can change while it is in use,
    and which is written before an entry that asks for it. */
module Backtrace {
  import opened Sequences

  type level = n: nat | n <= 6

  datatype Own = Unset | Own(level: level)
  datatype Record = Record(level: level, forced: bool, categoryLevel: Own, message: string)

  /** What reaches WriteRecord(): the markers around a written backtrace, and entries. */
  datatype Line = Begins(count: nat) | Entry(record: Record) | Ends

  /** The last 'n' elements, or all. */
  function Newest<E>(s: seq<E>, n: nat): seq<E> {
    if |s| <= n then s else s[|s| - n..]
  }

  function Forced(entries: seq<Record>): (lines: seq<Line>)
    ensures |lines| == |entries|
    ensures forall i :: 0 <= i < |entries| ==> lines[i] == Entry(entries[i].(forced := true))
  {
    if entries == [] then [] else Forced(entries[..|entries| - 1]) + [Entry(entries[|entries| - 1].(forced := true))]
  }

  class TBacktrace {
    var entries: seq<Record>
    var oldest: nat
    var capacity: nat
    var hasEntries: bool

    ghost predicate Valid()
      reads this
    {
      && |entries| <= capacity
      && (oldest != 0 ==> |entries| == capacity && oldest < capacity)
      && hasEntries == (entries != [])
    }

    /** The kept entries, oldest first. */
    ghost function Contents(): seq<Record>
      requires Valid()
      reads this
    {
      entries[oldest..] + entries[..oldest]
    }

    constructor ()
      ensures Valid() && Contents() == [] && capacity == 0
    {
      entries, oldest, capacity, hasEntries := [], 0, 0, false;
    }

    method Keep(record: Record)
      requires Valid()
      modifies this
      ensures Valid() && capacity == old(capacity)
      ensures Contents() == Newest(old(Contents()) + [record], capacity)
    {
      hide Newest;
      if capacity == 0 {
        NoneFit([record]);
        assert Contents() + [record] == [record];
        return;
      }
      if |entries| < capacity {
        StillFits(entries, record, capacity);
        entries := entries + [record];
      } else {
        ReplacesOldest(entries, oldest, record);
        entries := entries[oldest := record];
        oldest := (oldest + 1) % capacity;
      }
      hasEntries := true;
    }

    /** A smaller capacity keeps the newest entries, 0 none. */
    method ApplyCapacity(newCapacity: nat)
      requires Valid()
      modifies this
      ensures Valid() && capacity == newCapacity && Contents() == Newest(old(Contents()), newCapacity)
    {
      if |entries| > newCapacity || (oldest != 0 && newCapacity != capacity) {
        entries := entries[oldest..] + entries[..oldest];
        oldest := 0;
      }
      assert Contents() == old(Contents());
      if |entries| > newCapacity {
        entries := entries[|entries| - newCapacity..];
      }
      capacity := newCapacity;
      hasEntries := entries != [];
    }

    method Take() returns (taken: seq<Record>)
      requires Valid()
      modifies this
      ensures Valid() && capacity == old(capacity) && taken == old(Contents()) && Contents() == []
    {
      taken := entries[oldest..] + entries[..oldest];
      entries, oldest, hasEntries := [], 0, false;
    }

    /** For a crash: visits the entries, oldest first and forced, and forgets them if asked to. */
    method VisitForCrash(mustClear: bool) returns (visited: seq<Line>)
      requires Valid()
      modifies this
      ensures Valid() && capacity == old(capacity) && visited == Forced(old(Contents()))
      ensures Contents() == if mustClear then [] else old(Contents())
    {
      visited := [];
      var count := |entries|;
      ghost var all := Contents();
      for index := 0 to count
        invariant visited == Forced(all[..index]) && Valid() && Contents() == all && |entries| == count
      {
        var entry := entries[(oldest + index) % count];
        assert entry == all[index] by {
          InRing(entries, oldest, index);
        }
        assert all[..index + 1][..index] == all[..index];
        visited := visited + [Entry(entry.(forced := true))];
      }
      assert all[..count] == all;
      if mustClear {
        entries, oldest, hasEntries := [], 0, false;
      }
    }
  }

  lemma NoneFit(entries: seq<Record>)
    ensures Newest(entries, 0) == []
  {
  }

  lemma StillFits(entries: seq<Record>, record: Record, capacity: nat)
    requires |entries| < capacity
    ensures var after := entries + [record];
      after[0..] + after[..0] == Newest((entries[0..] + entries[..0]) + [record], capacity)
  {
  }

  lemma WrapsAround(a: nat, n: nat)
    requires a < 2 * n
    ensures a % n == if a < n then a else a - n
  {
  }

  lemma InRing(entries: seq<Record>, oldest: nat, index: nat)
    requires index < |entries| && (oldest == 0 || oldest < |entries|)
    ensures entries[(oldest + index) % |entries|] == (entries[oldest..] + entries[..oldest])[index]
  {
    WrapsAround(oldest + index, |entries|);
    RingAt(entries, oldest, index, if oldest + index < |entries| then oldest + index else oldest + index - |entries|);
  }

  lemma RingAt(entries: seq<Record>, oldest: nat, index: nat, at: nat)
    requires index < |entries| && oldest <= |entries|
    requires at == if oldest + index < |entries| then oldest + index else oldest + index - |entries|
    ensures at < |entries| && entries[at] == (entries[oldest..] + entries[..oldest])[index]
  {
  }

  lemma NewestDrops<E>(x: E, rest: seq<E>, y: E)
    ensures Newest([x] + rest + [y], |rest| + 1) == rest + [y]
  {
    assert [x] + rest + [y] == [x] + (rest + [y]);
  }

  lemma InThree(entries: seq<Record>, oldest: nat, record: Record)
    requires oldest < |entries|
    ensures var a, x, b := entries[..oldest], entries[oldest], entries[oldest + 1..];
      && entries[oldest..] == [x] + b
      && entries[oldest := record] == a + [record] + b
  {
  }

  lemma ReplacesOldest(entries: seq<Record>, oldest: nat, record: Record)
    requires oldest < |entries|
    ensures var after, next := entries[oldest := record], (oldest + 1) % |entries|;
      after[next..] + after[..next] == Newest((entries[oldest..] + entries[..oldest]) + [record], |entries|)
  {
    hide Newest;
    var a, b := entries[..oldest], entries[oldest + 1..];
    WrapsAround(oldest + 1, |entries|);
    InThree(entries, oldest, record);
    NewestOfRing(a, entries[oldest], b, record);
    TurnedRing(a + [record], b);
  }

  lemma NewestOfRing(a: seq<Record>, x: Record, b: seq<Record>, record: Record)
    ensures Newest((([x] + b) + a) + [record], |a| + |b| + 1) == b + (a + [record])
  {
    hide Newest;
    Associates([x], b, a);
    NewestDrops(x, b + a, record);
    Associates(b, a, [record]);
  }

  /** A ring turned to after 'front', which a turn to its end leaves as it is. */
  lemma TurnedRing(front: seq<Record>, b: seq<Record>)
    ensures (front + b)[|front|..] + (front + b)[..|front|] == b + front
    ensures b == [] ==> (front + b)[0..] + (front + b)[..0] == b + front
  {
    FrontAndBack(front, b);
  }

  // ---- Any run against the simple list ------------------------------------------------

  /** Steps in which the entries are the numbers in which they were kept. */
  datatype Step = Keeps | Resizes(capacity: nat) | Dumps | Visits(mustClear: bool)

  /** The simple list: how many entries were kept so far, the newest of them, and the lists written. */
  datatype List = List(count: nat, newest: seq<nat>, capacity: nat, dumped: seq<seq<nat>>)

  function Next(list: List, step: Step): List {
    match step
    case Keeps => list.(count := list.count + 1, newest := Newest(list.newest + [list.count], list.capacity))
    case Resizes(capacity) => list.(newest := Newest(list.newest, capacity), capacity := capacity)
    case Dumps => list.(newest := [], dumped := if list.newest == [] then list.dumped else list.dumped + [list.newest])
    case Visits(mustClear) => if mustClear then list.(newest := []) else list
  }

  function After(steps: seq<Step>): List {
    if steps == [] then List(0, [], 0, []) else Next(After(steps[..|steps| - 1]), steps[|steps| - 1])
  }

  /** 's' counts up from 'start' to 'end'. */
  predicate CountsUp(s: seq<nat>, start: nat, end: nat) {
    start + |s| == end && forall i :: 0 <= i < |s| ==> s[i] == start + i
  }

  /** The end of the last list written. */
  function DumpedUpTo(dumped: seq<seq<nat>>): nat {
    if dumped == [] || dumped[|dumped| - 1] == [] then 0 else dumped[|dumped| - 1][|dumped[|dumped| - 1]| - 1] + 1
  }

  /** The lists written follow each other without overlap. */
  ghost predicate DumpsInOrder(dumped: seq<seq<nat>>) {
    && (forall i :: 0 <= i < |dumped| ==> dumped[i] != [] && CountsUp(dumped[i], dumped[i][0], dumped[i][|dumped[i]| - 1] + 1))
    && (forall i, j :: 0 <= i < j < |dumped| ==> dumped[i][|dumped[i]| - 1] < dumped[j][0])
  }

  /** After any run, the list holds the newest entries without a gap, within the capacity, and no entry is written twice
      or out of order. */
  lemma {:induction false} RunKeepsNewest(steps: seq<Step>)
    ensures var list := After(steps);
      && |list.newest| <= list.capacity && |list.newest| <= list.count
      && CountsUp(list.newest, list.count - |list.newest|, list.count)
      && DumpsInOrder(list.dumped) && DumpedUpTo(list.dumped) <= list.count - |list.newest|
  {
    if steps != [] {
      RunKeepsNewest(steps[..|steps| - 1]);
      StepKeepsNewest(After(steps[..|steps| - 1]), steps[|steps| - 1]);
    }
  }

  lemma StepKeepsNewest(list: List, step: Step)
    requires |list.newest| <= list.capacity && |list.newest| <= list.count
    requires CountsUp(list.newest, list.count - |list.newest|, list.count)
    requires DumpsInOrder(list.dumped) && DumpedUpTo(list.dumped) <= list.count - |list.newest|
    ensures var next := Next(list, step);
      && |next.newest| <= next.capacity && |next.newest| <= next.count
      && CountsUp(next.newest, next.count - |next.newest|, next.count)
      && DumpsInOrder(next.dumped) && DumpedUpTo(next.dumped) <= next.count - |next.newest|
  {
    if step.Dumps? && list.newest != [] {
      AddsDump(list.dumped, list.newest);
    }
  }

  lemma AddsDump(dumped: seq<seq<nat>>, newest: seq<nat>)
    requires DumpsInOrder(dumped) && newest != [] && DumpedUpTo(dumped) <= newest[0]
    requires CountsUp(newest, newest[0], newest[|newest| - 1] + 1)
    ensures DumpsInOrder(dumped + [newest])
  {
    var all := dumped + [newest];
    forall i, j | 0 <= i < j < |all|
      ensures all[i][|all[i]| - 1] < all[j][0]
    {
      if j == |dumped| && i < |dumped| - 1 {
        var last := dumped[|dumped| - 1];
        assert dumped[i][|dumped[i]| - 1] < last[0] <= last[|last| - 1];
      }
    }
  }

  /** With the capacity unchanged since the backtrace was last empty, it holds exactly the newest 'capacity' entries kept
      since, or all of them. */
  lemma {:induction false} KeepsAsManyAsFit(before: seq<Step>, keeps: nat)
    requires After(before).newest == []
    ensures var list := After(before + seq(keeps, _ => Keeps));
      list.capacity == After(before).capacity && |list.newest| == if keeps <= list.capacity then keeps else list.capacity
  {
    var steps := before + seq(keeps, _ => Keeps);
    if keeps == 0 {
      assert steps == before;
    } else {
      assert steps[..|steps| - 1] == before + seq(keeps - 1, _ => Keeps);
      KeepsAsManyAsFit(before, keeps - 1);
    }
  }

  // ---- The ring through any run ----------------------------------------------------------

  predicate AreBelow(numbers: seq<nat>, count: nat) {
    forall i :: 0 <= i < |numbers| ==> numbers[i] < count
  }

  /** The entries with these numbers. */
  function EntriesOf(numbers: seq<nat>, records: seq<Record>): (entries: seq<Record>)
    requires AreBelow(numbers, |records|)
    ensures |entries| == |numbers| && forall i :: 0 <= i < |numbers| ==> entries[i] == records[numbers[i]]
  {
    if numbers == [] then []
    else EntriesOf(numbers[..|numbers| - 1], records) + [records[numbers[|numbers| - 1]]]
  }

  lemma {:induction false} NewestOf(numbers: seq<nat>, records: seq<Record>, n: nat)
    requires AreBelow(numbers, |records|)
    ensures AreBelow(Newest(numbers, n), |records|)
    ensures EntriesOf(Newest(numbers, n), records) == Newest(EntriesOf(numbers, records), n)
  {
    hide EntriesOf;
    if |numbers| > n {
      var entries, last := EntriesOf(numbers, records), numbers[|numbers| - n..];
      assert forall i :: 0 <= i < n ==> EntriesOf(last, records)[i] == entries[|numbers| - n..][i];
    }
  }

  lemma AddsEntry(numbers: seq<nat>, records: seq<Record>, number: nat)
    requires AreBelow(numbers, |records|) && number < |records|
    ensures AreBelow(numbers + [number], |records|)
    ensures EntriesOf(numbers + [number], records) == EntriesOf(numbers, records) + [records[number]]
  {
  }

  lemma {:induction false} CountingUp(numbers: seq<nat>, start: nat, end: nat, records: seq<Record>)
    requires CountsUp(numbers, start, end) && end <= |records|
    ensures AreBelow(numbers, |records|) && EntriesOf(numbers, records) == records[start..end]
  {
    hide EntriesOf;
  }

  /** 'ring' and 'dumps' have the entries whose numbers the simple list has. */
  ghost predicate Matches(ring: TBacktrace, dumps: seq<seq<Record>>, list: List, records: seq<Record>)
    reads ring
  {
    && ring.Valid() && ring.capacity == list.capacity && list.count <= |records|
    && AreBelow(list.newest, |records|) && ring.Contents() == EntriesOf(list.newest, records)
    && |dumps| == |list.dumped|
    && forall i :: 0 <= i < |dumps| ==> AreBelow(list.dumped[i], |records|) && dumps[i] == EntriesOf(list.dumped[i], records)
  }

  /** One step on the ring; a dump that finds nothing writes nothing. */
  method DoStep(ring: TBacktrace, dumps: seq<seq<Record>>, step: Step, ghost list: List, records: seq<Record>, count: nat)
      returns (after: seq<seq<Record>>)
    requires Matches(ring, dumps, list, records) && count == list.count && (step.Keeps? ==> count < |records|)
    modifies ring
    ensures Matches(ring, after, Next(list, step), records)
  {
    hide Newest, EntriesOf;
    after := dumps;
    match step {
      case Keeps =>
        AddsEntry(list.newest, records, count);
        NewestOf(list.newest + [count], records, list.capacity);
        ring.Keep(records[count]);
      case Resizes(capacity) =>
        NewestOf(list.newest, records, capacity);
        ring.ApplyCapacity(capacity);
      case Dumps =>
        var taken := ring.Take();
        if taken != [] {
          after := dumps + [taken];
        }
      case Visits(mustClear) =>
        var _ := ring.VisitForCrash(mustClear);
    }
  }

  lemma AfterOneMore(steps: seq<Step>, i: nat)
    requires i < |steps|
    ensures After(steps[..i + 1]) == Next(After(steps[..i]), steps[i])
  {
    assert steps[..i + 1][..i] == steps[..i];
  }

  lemma NextCount(list: List, step: Step)
    ensures Next(list, step).count == list.count + if step.Keeps? then 1 else 0
  {
  }

  /** Whatever is done with a new ring, it then holds, oldest first, exactly the newest entries that the simple list has,
      and its dumps are that list's. 'records' are the entries to keep, in turn. */
  method DoSteps(steps: seq<Step>, records: seq<Record>) returns (ring: TBacktrace, dumps: seq<seq<Record>>)
    requires |steps| <= |records|
    ensures fresh(ring) && Matches(ring, dumps, After(steps), records)
    ensures |After(steps).newest| <= After(steps).count
    ensures ring.Contents() == records[After(steps).count - |After(steps).newest|..After(steps).count]
  {
    hide EntriesOf, Next, After;
    AfterNone();
    ring := new TBacktrace();
    dumps := [];
    var count := 0;
    assert steps[..0] == [];
    for i := 0 to |steps|
      invariant fresh(ring) && Matches(ring, dumps, After(steps[..i]), records) && count == After(steps[..i]).count <= i
    {
      AfterOneMore(steps, i);
      NextCount(After(steps[..i]), steps[i]);
      dumps := DoStep(ring, dumps, steps[i], After(steps[..i]), records, count);
      if steps[i].Keeps? {
        count := count + 1;
      }
    }
    assert steps[..|steps|] == steps;
    RunKeepsNewest(steps);
    CountingUp(After(steps).newest, After(steps).count - |After(steps).newest|, After(steps).count, records);
  }

  lemma AfterNone()
    ensures After([]) == List(0, [], 0, [])
    ensures forall records :: EntriesOf([], records) == []
  {
  }

  // ---- Writing it before the entry that asks for it --------------------------------------

  class TLogger {
    var backtrace: TBacktrace
    var minimum: level
    var dumpLevel: level
    var lines: seq<Line>

    ghost predicate Valid()
      reads this, backtrace
    {
      backtrace.Valid()
    }

    constructor (minimum: level, dumpLevel: level, capacity: nat)
      ensures Valid() && fresh(backtrace) && backtrace.Contents() == [] && lines == []
    {
      var ring := new TBacktrace();
      ring.ApplyCapacity(capacity);
      this.backtrace, this.minimum, this.dumpLevel, this.lines := ring, minimum, dumpLevel, [];
    }

    /** A category's level takes the minimum level's place. */
    function MinimumFor(record: Record): level
      reads this
    {
      if record.categoryLevel.Own? then record.categoryLevel.level else minimum
    }

    /** The markers, the entries between them, and nothing kept afterwards; nothing at all if nothing is kept. */
    method WriteBacktrace()
      requires Valid()
      modifies this`lines, backtrace
      ensures Valid() && backtrace.capacity == old(backtrace.capacity) && backtrace.Contents() == []
      ensures var kept := old(backtrace.Contents());
        lines == old(lines) + if kept == [] then [] else [Begins(|kept|)] + Forced(kept) + [Ends]
    {
      hide Newest;
      ghost var before := lines;
      var entries := backtrace.Take();
      if entries == [] {
        return;
      }
      lines := lines + [Begins(|entries|)];
      for i := 0 to |entries|
        invariant Valid() && backtrace.Contents() == [] && backtrace.capacity == old(backtrace.capacity)
        invariant lines == (before + [Begins(|entries|)]) + Forced(entries[..i])
      {
        assert entries[..i + 1][..i] == entries[..i];
        Associates(before + [Begins(|entries|)], Forced(entries[..i]), [Entry(entries[i].(forced := true))]);
        lines := lines + [Entry(entries[i].(forced := true))];
      }
      assert entries[..|entries|] == entries;
      Associates(before, [Begins(|entries|)], Forced(entries));
      Associates(before, [Begins(|entries|)] + Forced(entries), [Ends]);
      lines := lines + [Ends];
    }

    /** An entry only the backtrace let in is kept. Any other is written, after the backtrace if its level asks for it. */
    method WriteOrKeep(record: Record)
      requires Valid()
      modifies this`lines, backtrace
      ensures Valid() && backtrace.capacity == old(backtrace.capacity)
      ensures var kept := old(backtrace.Contents());
        var isKept := !record.forced && record.level < MinimumFor(record);
        var isDumped := !isKept && kept != [] && record.level >= dumpLevel;
        && backtrace.Contents() == (if isKept then Newest(kept + [record], backtrace.capacity) else if isDumped then [] else kept)
        && lines == old(lines) + (if isDumped then [Begins(|kept|)] + Forced(kept) + [Ends] else [])
                    + (if isKept then [] else [Entry(record)])
    {
      if !record.forced && record.level < MinimumFor(record) {
        backtrace.Keep(record);
        return;
      }
      if backtrace.hasEntries && record.level >= dumpLevel {
        WriteBacktrace();
      }
      lines := lines + [Entry(record)];
    }
  }
}
