/** The lock-free limiter, as the atomic steps of any number of threads in any order. */
module Limiter {

  // ---- Once ----------------------------------------------------------------------

  datatype OncePlace = OnceIdle | SawNone

  /** 'allowed' and 'refused' count the calls that have returned. */
  datatype OnceState = OnceState(callCount: nat, places: map<nat, OncePlace>, allowed: nat, refused: nat)

  /** The load of a call, and the exchange of one that loaded 0. */
  datatype OnceStep = LoadCount(t: nat) | ExchangeCount(t: nat)

  function OnceAt(s: OnceState, t: nat): OncePlace {
    if t in s.places then s.places[t] else OnceIdle
  }

  predicate OnceCan(s: OnceState, step: OnceStep) {
    OnceAt(s, step.t) == if step.LoadCount? then OnceIdle else SawNone
  }

  function OnceNext(s: OnceState, step: OnceStep): OnceState
    requires OnceCan(s, step)
  {
    match step
    case LoadCount(t) => if s.callCount == 0 then s.(places := s.places[t := SawNone]) else s.(refused := s.refused + 1)
    case ExchangeCount(t) =>
      var s1 := s.(callCount := 1, places := s.places[t := OnceIdle]);
      if s.callCount == 0 then s1.(allowed := s.allowed + 1) else s1.(refused := s.refused + 1)
  }

  ghost predicate OnceRun(states: seq<OnceState>, steps: seq<OnceStep>) {
    && |states| == |steps| + 1 && states[0] == OnceState(0, map[], 0, 0)
    && forall i :: 0 <= i < |steps| ==> OnceCan(states[i], steps[i]) && states[i + 1] == OnceNext(states[i], steps[i])
  }

  /** However the calls interleave, one is allowed: the first to return, or one that returns with it. */
  lemma {:induction false} OnceAllowsOne(states: seq<OnceState>, steps: seq<OnceStep>, n: nat)
    requires OnceRun(states, steps) && n <= |steps|
    ensures states[n].allowed == states[n].callCount <= 1
    ensures states[n].allowed + states[n].refused > 0 ==> states[n].allowed == 1
  {
    if n > 0 {
      OnceAllowsOne(states, steps, n - 1);
      assert OnceCan(states[n - 1], steps[n - 1]) && states[n] == OnceNext(states[n - 1], steps[n - 1]);
    }
  }

  // ---- EveryN --------------------------------------------------------------------

  /** The call count is a 64-bit unsigned integer. */
  const WORD: nat := 0x1_0000_0000_0000_0000

  /** The call after 'before' others: one atomic step. */
  predicate EveryNAllows(before: nat, n: nat)
    requires n > 0
  {
    before % WORD % n == 0
  }

  /** How many of the first 'calls' calls are allowed. */
  function AllowedOf(calls: nat, n: nat): nat
    requires n > 0
  {
    if calls == 0 then 0 else AllowedOf(calls - 1, n) + if EveryNAllows(calls - 1, n) then 1 else 0
  }

  /** 'q' is 'k' divided by 'n', rounded up. */
  predicate IsCeiling(k: nat, n: nat, q: nat) {
    k <= q * n < k + n
  }

  lemma CeilingIsUnique(k: nat, n: nat, p: nat, q: nat)
    requires n > 0 && IsCeiling(k, n, p) && IsCeiling(k, n, q)
    ensures p == q
  {
    OneMore(p, n);
    OneMore(q, n);
    if p < q {
      MultiplyMonotone(p + 1, q, n);
    } else if q < p {
      MultiplyMonotone(q + 1, p, n);
    }
  }

  lemma OneMore(a: nat, n: nat)
    ensures (a + 1) * n == a * n + n
  {
  }

  lemma MultiplyMonotone(a: nat, b: nat, n: nat)
    requires a <= b
    ensures a * n <= b * n
  {
  }

  lemma MultipleHasNoRemainder(q: nat, n: nat)
    requires n > 0
    ensures (q * n) % n == 0
  {
    if q > 0 {
      MultipleHasNoRemainder(q - 1, n);
      assert q * n == (q - 1) * n + n;
      AddsMultiple((q - 1) * n, n);
    }
  }

  lemma AddsMultiple(a: nat, n: nat)
    requires n > 0
    ensures (a + n) % n == a % n
  {
    var q, r := a / n, a % n;
    assert a + n == (q + 1) * n + r;
    RemainderIs(a + n, n, q + 1, r);
  }

  lemma RemainderIs(a: nat, n: nat, q: nat, r: nat)
    requires n > 0 && r < n && a == q * n + r
    ensures a % n == r
  {
    var q', r' := a / n, a % n;
    assert a == q' * n + r';
    OneMore(q, n);
    OneMore(q', n);
    if q' < q {
      MultiplyMonotone(q' + 1, q, n);
    } else if q < q' {
      MultiplyMonotone(q + 1, q', n);
    }
  }

  /** The next call after 'k' is a multiple of 'n' if and only if the ceiling is reached. */
  lemma CeilingGrows(k: nat, n: nat, q: nat)
    requires n > 0 && IsCeiling(k, n, q)
    ensures IsCeiling(k + 1, n, if k % n == 0 then q + 1 else q)
  {
    if k == q * n {
      MultipleHasNoRemainder(q, n);
    } else {
      assert k == (q - 1) * n + (k - (q - 1) * n);
      RemainderIs(k, n, q - 1, k - (q - 1) * n);
    }
  }

  /** Up to the wrap of the call count, 'calls' divided by n, rounded up, are allowed. */
  lemma {:induction false} EveryNBeforeWrap(calls: nat, n: nat)
    requires n > 0 && calls <= WORD
    ensures IsCeiling(calls, n, AllowedOf(calls, n))
  {
    if calls > 0 {
      EveryNBeforeWrap(calls - 1, n);
      CeilingGrows(calls - 1, n, AllowedOf(calls - 1, n));
    }
  }

  /** The remainder by 'n' survives the wrap if 'n' divides the word. */
  lemma {:induction false} WrapKeepsRemainder(k: nat, n: nat)
    requires n > 0 && WORD % n == 0
    ensures k % WORD % n == k % n
    decreases k
  {
    if k >= WORD {
      WrapKeepsRemainder(k - WORD, n);
      AddsMultiple(k - WORD, WORD);
      AddsMultiples(k - WORD, n, WORD / n);
      assert WORD == n * (WORD / n);
    }
  }

  lemma {:induction false} AddsMultiples(a: nat, n: nat, count: nat)
    requires n > 0
    ensures (a + n * count) % n == a % n
  {
    if count > 0 {
      AddsMultiples(a, n, count - 1);
      assert n * count == n * (count - 1) + n;
      AddsMultiple(a + n * (count - 1), n);
    }
  }

  lemma {:induction false} EveryNWithDivisor(calls: nat, n: nat)
    requires n > 0 && WORD % n == 0
    ensures IsCeiling(calls, n, AllowedOf(calls, n))
  {
    if calls > 0 {
      EveryNWithDivisor(calls - 1, n);
      CeilingGrows(calls - 1, n, AllowedOf(calls - 1, n));
      WrapKeepsRemainder(calls - 1, n);
    }
  }

  ghost predicate EveryNIsExact(n: nat)
    requires n > 0
  {
    forall calls: nat :: IsCeiling(calls, n, AllowedOf(calls, n))
  }

  /** Every n-th call is allowed for ever if and only if n divides the word: else the call after the wrap is one too many. */
  lemma EveryNForEver(n: nat)
    requires n > 0
    ensures EveryNIsExact(n) <==> 0x1_0000_0000_0000_0000 % n == 0
  {
    if WORD % n == 0 {
      forall calls: nat ensures IsCeiling(calls, n, AllowedOf(calls, n)) {
        EveryNWithDivisor(calls, n);
      }
    } else {
      var q := AllowedOf(WORD, n);
      EveryNBeforeWrap(WORD, n);
      CeilingGrows(WORD, n, q);
      assert WORD % WORD == 0 && EveryNAllows(WORD, n);
      assert AllowedOf(WORD + 1, n) == q + 1;
      if IsCeiling(WORD + 1, n, q + 1) {
        CeilingIsUnique(WORD + 1, n, q, q + 1);
      }
    }
  }

  /** An allowed call after the first reports n - 1 refused ones: those since the allowed call before it. */
  lemma EveryNReports(call: nat, n: nat, j: nat)
    requires n > 0 && 0 < call < WORD && EveryNAllows(call, n) && 0 < j < n
    ensures n <= call && EveryNAllows(call - n, n) && !EveryNAllows(call - j, n)
  {
    var q := call / n;
    assert call == q * n && call % WORD == call;
    assert q > 0;
    Multiples(call, n, q, j);
  }

  lemma Multiples(call: nat, n: nat, q: nat, j: nat)
    requires call == q * n && q > 0 && 0 < j < n && call < WORD
    ensures n <= call && (call - n) % WORD % n == 0 && (call - j) % WORD % n == n - j
  {
    OneMore(q - 1, n);
    assert call == (q - 1) * n + n;
    RemainderIs(call - n, n, q - 1, 0);
    RemainderIs(call - j, n, q - 1, n - j);
  }

  // ---- EveryInterval ------------------------------------------------------------------

  const MAX_TICKS: int := 0x7FFF_FFFF_FFFF_FFFF
  const MIN_TICKS: int := -0x8000_0000_0000_0000

  type ticks = n: int | MIN_TICKS <= n <= MAX_TICKS

  /** The time from which the call after one at 'now' is allowed. The subtraction and the sum are 64-bit. */
  function NextAllowed(now: ticks, interval: ticks): (next: ticks)
    requires interval > 0
    ensures next == if now + interval > MAX_TICKS then MAX_TICKS else now + interval
  {
    if now > 0 && interval > TickDifference(MAX_TICKS, now) then MAX_TICKS else TickSum(now, interval)
  }

  function TickSum(a: ticks, b: ticks): ticks
    requires MIN_TICKS <= a + b <= MAX_TICKS
  {
    a + b
  }

  function TickDifference(a: ticks, b: ticks): ticks
    requires MIN_TICKS <= a - b <= MAX_TICKS
  {
    a - b
  }

  /** Where a call stands: it knows the time and what it loaded, or whether it is allowed. */
  datatype Place = Idle | Loaded(call: nat, now: ticks, expected: ticks) | Refuses(call: nat) | Reports(call: nat)

  /** 'pending' are the refused calls counted since the last report, 'reported' those of each report, and 'refused' all,
      in the order they were counted; 'granted' are the allowed calls, and 'allowed' their times. */
  datatype State = State(
    nextAllowed: ticks,
    calls: nat,
    places: map<nat, Place>,
    pending: seq<nat>,
    reported: seq<seq<nat>>,
    refused: seq<nat>,
    granted: seq<nat>,
    allowed: seq<ticks>)

  /** The load of a call (with an interval of zero or less, the whole call), its exchange, and the count or the report. */
  datatype Step = Load(t: nat, now: ticks) | Exchange(t: nat) | CountRefused(t: nat) | TakeCount(t: nat)

  const INITIAL: State := State(MIN_TICKS, 0, map[], [], [], [], [], [])

  function At(s: State, t: nat): Place {
    if t in s.places then s.places[t] else Idle
  }

  predicate Can(s: State, step: Step) {
    match step
    case Load(t, now) => At(s, t).Idle?
    case Exchange(t) => At(s, t).Loaded?
    case CountRefused(t) => At(s, t).Refuses?
    case TakeCount(t) => At(s, t).Reports?
  }

  function Next(s: State, step: Step, interval: ticks): State
    requires Can(s, step)
  {
    match step
    case Load(t, now) =>
      var s1 := s.(calls := s.calls + 1);
      if interval <= 0 then s1.(granted := s.granted + [s.calls], allowed := s.allowed + [now])
      else s1.(places := s.places[t := Loaded(s.calls, now, s.nextAllowed)])
    case Exchange(t) =>
      var p := At(s, t);
      if interval <= 0 || p.now < p.expected || s.nextAllowed != p.expected then s.(places := s.places[t := Refuses(p.call)])
      else s.(nextAllowed := NextAllowed(p.now, interval), granted := s.granted + [p.call], allowed := s.allowed + [p.now],
              places := s.places[t := Reports(p.call)])
    case CountRefused(t) =>
      var call := At(s, t).call;
      s.(pending := s.pending + [call], refused := s.refused + [call], places := s.places[t := Idle])
    case TakeCount(t) => s.(reported := s.reported + [s.pending], pending := [], places := s.places[t := Idle])
  }

  function Flat(lists: seq<seq<nat>>): seq<nat> {
    if lists == [] then [] else Flat(lists[..|lists| - 1]) + lists[|lists| - 1]
  }

  /** No two calls under way or refused are the same. */
  ghost predicate CallsDiffer(s: State) {
    && (forall t :: !At(s, t).Idle? ==> At(s, t).call < s.calls)
    && (forall i :: 0 <= i < |s.refused| ==> s.refused[i] < s.calls)
    && (forall t, u :: t != u && !At(s, t).Idle? && !At(s, u).Idle? ==> At(s, t).call != At(s, u).call)
    && (forall i, t :: 0 <= i < |s.refused| && !At(s, t).Idle? ==> s.refused[i] != At(s, t).call)
    && (forall i, j :: 0 <= i < j < |s.refused| ==> s.refused[i] != s.refused[j])
  }

  ghost predicate Spaced(s: State, interval: ticks) {
    if interval > 0 then
      && s.nextAllowed == (if s.allowed == [] then MIN_TICKS else NextAllowed(s.allowed[|s.allowed| - 1], interval))
      && (forall i :: 0 < i < |s.allowed| ==> s.allowed[i] >= NextAllowed(s.allowed[i - 1], interval))
    else
      |s.allowed| == s.calls && s.refused == [] && (forall t :: At(s, t).Idle?)
  }

  /** The call hasn't been counted as refused, and isn't allowed yet. */
  predicate IsOpen(p: Place) {
    p.Loaded? || p.Refuses?
  }

  /** No call gets lost, and none is both allowed and refused. */
  ghost predicate CallsKnown(s: State) {
    && |s.granted| == |s.allowed|
    && (forall call: nat :: call < s.calls ==> IsKnown(s, call))
    && (forall call :: call in s.granted ==> call < s.calls && call !in s.refused)
    && (forall t :: IsOpen(At(s, t)) ==> At(s, t).call !in s.granted)
  }

  ghost predicate IsKnown(s: State, call: nat) {
    call in s.granted || call in s.refused || exists t :: IsOpen(At(s, t)) && At(s, t).call == call
  }

  ghost predicate Invariant(s: State, interval: ticks) {
    CallsDiffer(s) && CallsKnown(s) && s.refused == Flat(s.reported) + s.pending && Spaced(s, interval)
  }

  /** A call moves on with its number. */
  lemma MovesOn(s: State, s': State, t: nat)
    requires CallsDiffer(s) && s'.calls == s.calls && s'.refused == s.refused
    requires forall u :: u != t ==> At(s', u) == At(s, u)
    requires !At(s, t).Idle? && (At(s', t).Idle? || At(s', t).call == At(s, t).call)
    ensures CallsDiffer(s')
  {
  }

  lemma NewCallDiffers(s: State, s': State, t: nat)
    requires CallsDiffer(s) && s'.calls == s.calls + 1 && s'.refused == s.refused
    requires forall u :: u != t ==> At(s', u) == At(s, u)
    requires At(s', t) == At(s, t) || (At(s, t).Idle? && !At(s', t).Idle? && At(s', t).call == s.calls)
    ensures CallsDiffer(s')
  {
  }

  lemma RefusedDiffers(s: State, s': State, t: nat)
    requires CallsDiffer(s) && s'.calls == s.calls && !At(s, t).Idle? && s'.refused == s.refused + [At(s, t).call]
    requires At(s', t).Idle? && forall u :: u != t ==> At(s', u) == At(s, u)
    ensures CallsDiffer(s')
  {
  }

  lemma StepKeepsDifferent(s: State, step: Step, interval: ticks)
    requires CallsDiffer(s) && Can(s, step)
    ensures CallsDiffer(Next(s, step, interval))
  {
    hide CallsDiffer;
    var s' := Next(s, step, interval);
    match step
    case Load(t, _) => NewCallDiffers(s, s', t);
    case CountRefused(t) => RefusedDiffers(s, s', t);
    case Exchange(t) => MovesOn(s, s', t);
    case TakeCount(t) => MovesOn(s, s', t);
  }

  lemma StepKeepsSpaced(s: State, step: Step, interval: ticks)
    requires Spaced(s, interval) && Can(s, step)
    ensures Spaced(Next(s, step, interval), interval)
  {
    if interval <= 0 {
      var s' := Next(s, step, interval);
      assert At(s, step.t).Idle?;
      assert forall t :: At(s', t) == At(s, t);
    }
  }

  lemma StepKeepsCounted(s: State, step: Step, interval: ticks)
    requires s.refused == Flat(s.reported) + s.pending && Can(s, step)
    ensures var s' := Next(s, step, interval); s'.refused == Flat(s'.reported) + s'.pending
  {
    if step.TakeCount? {
      assert (s.reported + [s.pending])[..|s.reported|] == s.reported;
    } else if step.CountRefused? {
      assert Flat(s.reported) + (s.pending + [At(s, step.t).call]) == (Flat(s.reported) + s.pending) + [At(s, step.t).call];
    }
  }

  lemma StepKeepsKnown(s: State, step: Step, interval: ticks)
    requires CallsDiffer(s) && CallsKnown(s) && Can(s, step)
    ensures CallsKnown(Next(s, step, interval))
  {
    var s' := Next(s, step, interval);
    var t := step.t;
    assert forall u :: u != t ==> At(s', u) == At(s, u);
    forall call: nat | call < s'.calls ensures IsKnown(s', call) {
      if call < s.calls {
        assert IsKnown(s, call);
        if u :| IsOpen(At(s, u)) && At(s, u).call == call {
          assert u != t ==> IsOpen(At(s', u)) && At(s', u).call == call;
          assert u == t ==> (IsOpen(At(s', u)) && At(s', u).call == call) || call in s'.granted || call in s'.refused;
        }
      } else {
        assert call in s'.granted || (IsOpen(At(s', t)) && At(s', t).call == call);
      }
    }
  }

  lemma StepKeepsInvariant(s: State, step: Step, interval: ticks)
    requires Invariant(s, interval) && Can(s, step)
    ensures Invariant(Next(s, step, interval), interval)
  {
    hide CallsDiffer, CallsKnown, Spaced, Next, Can;
    StepKeepsDifferent(s, step, interval);
    StepKeepsKnown(s, step, interval);
    StepKeepsSpaced(s, step, interval);
    StepKeepsCounted(s, step, interval);
  }

  ghost predicate IsRun(states: seq<State>, steps: seq<Step>, interval: ticks) {
    && |states| == |steps| + 1 && states[0] == INITIAL
    && forall i :: 0 <= i < |steps| ==> Can(states[i], steps[i]) && states[i + 1] == Next(states[i], steps[i], interval)
  }

  lemma {:induction false} RunKeepsInvariant(states: seq<State>, steps: seq<Step>, interval: ticks, n: nat)
    requires IsRun(states, steps, interval) && n <= |steps|
    ensures Invariant(states[n], interval)
  {
    hide Next, Can, Invariant;
    if n == 0 {
      InvariantAtFirst(interval);
    } else {
      RunKeepsInvariant(states, steps, interval, n - 1);
      assert Can(states[n - 1], steps[n - 1]) && states[n] == Next(states[n - 1], steps[n - 1], interval);
      StepKeepsInvariant(states[n - 1], steps[n - 1], interval);
    }
  }

  lemma InvariantAtFirst(interval: ticks)
    ensures Invariant(INITIAL, interval)
  {
  }

  /** However the calls interleave: each allowed call is at least an interval after the one before, unless that one's
      interval ends after the clock does (with an interval of zero or less, every call is allowed); every call that isn't
      under way was allowed or counted as refused, and not both; and each call counted as refused is in exactly one report
      or still to be reported. */
  lemma EveryIntervalHolds(states: seq<State>, steps: seq<Step>, interval: ticks)
    requires IsRun(states, steps, interval)
    ensures var s := states[|steps|];
      && (if interval > 0 then
            forall i :: 0 < i < |s.allowed| ==>
              s.allowed[i] >= s.allowed[i - 1] + interval || (s.allowed[i] == MAX_TICKS < s.allowed[i - 1] + interval)
          else |s.allowed| == s.calls && s.refused == [])
      && s.refused == Flat(s.reported) + s.pending
      && (forall i, j :: 0 <= i < j < |s.refused| ==> s.refused[i] != s.refused[j])
      && |s.granted| == |s.allowed|
      && (forall call: nat :: call < s.calls ==> IsKnown(s, call) && !(call in s.granted && call in s.refused))
  {
    RunKeepsInvariant(states, steps, interval, |steps|);
  }

  // ---- Which calls are allowed --------------------------------------------------------

  /** An interval after the last allowed call, or the end of the clock if it comes first. */
  predicate IsOver(allowed: seq<ticks>, now: ticks, interval: ticks) {
    allowed == [] || now >= allowed[|allowed| - 1] + interval || now == MAX_TICKS
  }

  /** From one state of a run to a later one, the allowed calls only grow, and each one moves the limit until it has reached
      the end of the clock. */
  ghost predicate MovesLimit(s: State, s': State) {
    && s.allowed <= s'.allowed && s.nextAllowed <= s'.nextAllowed
    && (s'.allowed == s.allowed ==> s'.nextAllowed == s.nextAllowed)
    && (s'.allowed != s.allowed && s.nextAllowed < MAX_TICKS ==> s.nextAllowed < s'.nextAllowed)
  }

  lemma StepMovesLimit(s: State, step: Step, interval: ticks)
    requires interval > 0 && Spaced(s, interval) && Can(s, step)
    ensures MovesLimit(s, Next(s, step, interval))
  {
  }

  /** Until its exchange, a call knows its time, and the limit as it was at its load. */
  ghost predicate KnowsLimit(loaded: State, s: State, t: nat, now: ticks) {
    At(s, t).Loaded? && At(s, t).now == now && At(s, t).expected == loaded.nextAllowed && MovesLimit(loaded, s)
  }

  lemma LoadKnows(s: State, t: nat, now: ticks, interval: ticks)
    requires interval > 0 && Can(s, Load(t, now))
    ensures KnowsLimit(s, Next(s, Load(t, now), interval), t, now)
  {
  }

  lemma StillKnows(loaded: State, s: State, step: Step, t: nat, now: ticks, interval: ticks)
    requires interval > 0 && Spaced(s, interval) && Can(s, step) && step.t != t && KnowsLimit(loaded, s, t, now)
    ensures KnowsLimit(loaded, Next(s, step, interval), t, now)
  {
    StepMovesLimit(s, step, interval);
    assert At(Next(s, step, interval), t) == At(s, t);
  }

  lemma {:induction false} LoadedKnows(states: seq<State>, steps: seq<Step>, interval: ticks, t: nat, now: ticks, m: nat, n: nat)
    requires interval > 0 && IsRun(states, steps, interval) && m < n <= |steps| && steps[m] == Load(t, now)
    requires forall k :: m < k < n ==> steps[k].t != t
    ensures KnowsLimit(states[m], states[n], t, now)
    decreases n
  {
    hide Next, Can, KnowsLimit, CallsDiffer, CallsKnown;
    RunKeepsInvariant(states, steps, interval, n - 1);
    assert Can(states[n - 1], steps[n - 1]) && states[n] == Next(states[n - 1], steps[n - 1], interval);
    if m == n - 1 {
      LoadKnows(states[m], t, now, interval);
    } else {
      LoadedKnows(states, steps, interval, t, now, m, n - 1);
      StillKnows(states[m], states[n - 1], steps[n - 1], t, now, interval);
    }
  }

  /** A call at 'now' that loads at step m and exchanges at step n is allowed if and only if the interval was over at its
      load, and no other call was allowed in between, or the limit had reached the end of the clock. */
  lemma AllowedExactly(states: seq<State>, steps: seq<Step>, interval: ticks, t: nat, now: ticks, m: nat, n: nat)
    requires interval > 0 && IsRun(states, steps, interval) && m < n < |steps|
    requires steps[m] == Load(t, now) && steps[n] == Exchange(t) && forall k :: m < k < n ==> steps[k].t != t
    ensures var before, at, after := states[m].allowed, states[n].allowed, states[n + 1].allowed;
      if IsOver(before, now, interval) &&
         (at == before || (before != [] && before[|before| - 1] + interval >= MAX_TICKS))
      then after == at + [now] && At(states[n + 1], t).Reports?
      else after == at && At(states[n + 1], t).Refuses?
  {
    hide Next;
    LoadedKnows(states, steps, interval, t, now, m, n);
    RunKeepsInvariant(states, steps, interval, m);
    assert Can(states[n], steps[n]) && states[n + 1] == Next(states[n], steps[n], interval);
    Exchanges(states[m], states[n], t, interval);
  }

  lemma Exchanges(loaded: State, s: State, t: nat, interval: ticks)
    requires interval > 0 && Spaced(loaded, interval) && At(s, t).Loaded? && At(s, t).expected == loaded.nextAllowed
    requires MovesLimit(loaded, s)
    ensures var before, now, s' := loaded.allowed, At(s, t).now, Next(s, Exchange(t), interval);
      if IsOver(before, now, interval) &&
         (s.allowed == before || (before != [] && before[|before| - 1] + interval >= MAX_TICKS))
      then s'.allowed == s.allowed + [now] && At(s', t).Reports?
      else s'.allowed == s.allowed && At(s', t).Refuses?
  {
  }

  /** The first call to exchange is allowed, at any tick. */
  lemma FirstIsAllowed(states: seq<State>, steps: seq<Step>, interval: ticks, t: nat, now: ticks, m: nat, n: nat)
    requires interval > 0 && IsRun(states, steps, interval) && m < n < |steps|
    requires steps[m] == Load(t, now) && steps[n] == Exchange(t) && forall k :: 0 <= k < n ==> !steps[k].Exchange?
    requires forall k :: m < k < n ==> steps[k].t != t
    ensures states[n + 1].allowed == [now]
  {
    NoneAllowed(states, steps, interval, m);
    NoneAllowed(states, steps, interval, n);
    AllowedExactly(states, steps, interval, t, now, m, n);
  }

  lemma {:induction false} NoneAllowed(states: seq<State>, steps: seq<Step>, interval: ticks, n: nat)
    requires interval > 0 && IsRun(states, steps, interval) && n <= |steps|
    requires forall k :: 0 <= k < n ==> !steps[k].Exchange?
    ensures states[n].allowed == []
  {
    if n > 0 {
      NoneAllowed(states, steps, interval, n - 1);
      assert Can(states[n - 1], steps[n - 1]) && states[n] == Next(states[n - 1], steps[n - 1], interval);
    }
  }

  /** At the end of the clock the spacing is lost: after a call whose interval ends after it, every call at the last tick is
      allowed that loads the limit before another one is. */
  lemma AtClockEnd(s: State, t: nat, interval: ticks)
    requires interval > 0 && s.nextAllowed == MAX_TICKS && At(s, t).Idle?
    ensures var loaded := Next(s, Load(t, MAX_TICKS), interval);
      Can(loaded, Exchange(t)) &&
      Next(loaded, Exchange(t), interval).allowed == s.allowed + [MAX_TICKS] &&
      Next(loaded, Exchange(t), interval).nextAllowed == MAX_TICKS
  {
  }

  /** With any interval, two calls at the last tick are both allowed, without any time in between. */
  lemma SpacingEndsWithTheClock(interval: ticks) returns (states: seq<State>, steps: seq<Step>)
    requires interval > 0
    ensures steps == [Load(1, MAX_TICKS), Exchange(1), Load(2, MAX_TICKS), Exchange(2)]
    ensures IsRun(states, steps, interval) && states[4].allowed == [MAX_TICKS, MAX_TICKS]
  {
    steps := [Load(1, MAX_TICKS), Exchange(1), Load(2, MAX_TICKS), Exchange(2)];
    var s1 := Next(INITIAL, steps[0], interval);
    var s2 := Next(s1, steps[1], interval);
    assert At(s2, 2).Idle? && s2.nextAllowed == MAX_TICKS && s2.allowed == [MAX_TICKS];
    AtClockEnd(s2, 2, interval);
    var s3 := Next(s2, steps[2], interval);
    var s4 := Next(s3, steps[3], interval);
    assert s4.allowed == [MAX_TICKS] + [MAX_TICKS];
    states := [INITIAL, s1, s2, s3, s4];
  }

  /** There, a call can be allowed though another one was allowed between its load and its exchange. */
  lemma AllowedInBetween(interval: ticks) returns (states: seq<State>, steps: seq<Step>)
    requires interval > 0
    ensures steps == [Load(1, MAX_TICKS), Exchange(1), Load(2, MAX_TICKS), Load(3, MAX_TICKS), Exchange(2), Exchange(3)]
    ensures IsRun(states, steps, interval) && |states[4].allowed| == 1 && |states[5].allowed| == 2 && |states[6].allowed| == 3
  {
    var first, before := SpacingEndsWithTheClock(interval);
    steps := [Load(1, MAX_TICKS), Exchange(1), Load(2, MAX_TICKS), Load(3, MAX_TICKS), Exchange(2), Exchange(3)];
    var s3 := first[3];
    assert Can(first[2], before[2]) && s3 == Next(first[2], before[2], interval);
    assert Can(first[1], before[1]) && first[2] == Next(first[1], before[1], interval);
    assert Can(first[0], before[0]) && first[1] == Next(first[0], before[0], interval);
    var s4 := Next(s3, steps[3], interval);
    var s5 := Next(s4, steps[4], interval);
    var s6 := Next(s5, steps[5], interval);
    states := [first[0], first[1], first[2], s3, s4, s5, s6];
  }
}
