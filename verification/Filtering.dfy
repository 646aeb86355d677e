/** Which entries get through trees of category, multi and base loggers: ShouldLog() says exactly when Write() does
    something, and which level decides. */
module Filtering {

  type level = n: nat | n <= 6

  const OFF: level := 6

  // ---- The packed levels -------------------------------------------------------

  /** The lower of the two levels, except that a minimum of Off lets nothing in. */
  function GateOf(minimum: level, backtrace: level): level {
    if minimum == OFF || backtrace >= minimum then minimum else backtrace
  }

  /** The gate, the minimum level and the backtrace's level in one word. */
  function PackLevels(minimum: level, backtrace: level): nat {
    GateOf(minimum, backtrace) + minimum * 0x100 + backtrace * 0x10000
  }

  function GateLevelOf(levels: nat): nat {
    levels % 0x100
  }

  function MinimumLevelOf(levels: nat): nat {
    levels / 0x100 % 0x100
  }

  function BacktraceLevelOf(levels: nat): nat {
    levels / 0x10000 % 0x100
  }

  lemma PackedLevels(minimum: level, backtrace: level)
    ensures var levels := PackLevels(minimum, backtrace);
      GateLevelOf(levels) == GateOf(minimum, backtrace) && MinimumLevelOf(levels) == minimum &&
      BacktraceLevelOf(levels) == backtrace
  {
    ThreeBytes(GateOf(minimum, backtrace), minimum, backtrace);
  }

  lemma ThreeBytes(a: nat, b: nat, c: nat)
    requires a < 0x100 && b < 0x100 && c < 0x100
    ensures var n := a + b * 0x100 + c * 0x10000; n % 0x100 == a && n / 0x100 % 0x100 == b && n / 0x10000 % 0x100 == c
  {
    var n := a + b * 0x100 + c * 0x10000;
    assert n / 0x100 == b + c * 0x100;
    assert n / 0x10000 == c;
  }

  /** One successful exchange of SetMinimumLevel() or of a new backtrace config, on the word it replaces. */
  datatype Update = NewMinimum(level: level) | NewBacktrace(level: level)

  predicate IsPacked(levels: nat) {
    MinimumLevelOf(levels) <= OFF && BacktraceLevelOf(levels) <= OFF &&
    levels == PackLevels(MinimumLevelOf(levels), BacktraceLevelOf(levels))
  }

  function Exchange(levels: nat, update: Update): nat
    requires IsPacked(levels)
  {
    match update
    case NewMinimum(level) => PackLevels(level, BacktraceLevelOf(levels))
    case NewBacktrace(level) => PackLevels(MinimumLevelOf(levels), level)
  }

  function AfterUpdates(levels: nat, updates: seq<Update>): (after: nat)
    requires IsPacked(levels)
    ensures IsPacked(after)
  {
    if updates == [] then levels
    else
      var before := AfterUpdates(levels, updates[..|updates| - 1]);
      PackedLevels(MinimumLevelOf(before), BacktraceLevelOf(before));
      match updates[|updates| - 1] {
        case NewMinimum(level) => PackedLevels(level, BacktraceLevelOf(before)); Exchange(before, updates[|updates| - 1])
        case NewBacktrace(level) => PackedLevels(MinimumLevelOf(before), level); Exchange(before, updates[|updates| - 1])
      }
  }

  /** The level the last update of its kind set. */
  function LastMinimum(minimum: level, updates: seq<Update>): level {
    if updates == [] then minimum
    else if updates[|updates| - 1].NewMinimum? then updates[|updates| - 1].level
    else LastMinimum(minimum, updates[..|updates| - 1])
  }

  function LastBacktrace(backtrace: level, updates: seq<Update>): level {
    if updates == [] then backtrace
    else if updates[|updates| - 1].NewBacktrace? then updates[|updates| - 1].level
    else LastBacktrace(backtrace, updates[..|updates| - 1])
  }

  /** However the two kinds of updates interleave, the gate is that of the last minimum and the last backtrace level. */
  lemma {:induction false} GateMatchesBoth(minimum: level, backtrace: level, updates: seq<Update>)
    requires IsPacked(PackLevels(minimum, backtrace))
    ensures AfterUpdates(PackLevels(minimum, backtrace), updates)
         == PackLevels(LastMinimum(minimum, updates), LastBacktrace(backtrace, updates))
  {
    if updates == [] {
    } else {
      var n := |updates| - 1;
      GateMatchesBoth(minimum, backtrace, updates[..n]);
      PackedLevels(LastMinimum(minimum, updates[..n]), LastBacktrace(backtrace, updates[..n]));
    }
  }

  // ---- Loggers --------------------------------------------------------------------

  datatype Own = Unset | Own(level: level)

  /** The part of a record the checks read, and the category's name that goes with its level. */
  datatype Record = Record(level: level, forced: bool, categoryLevel: Own, category: string)

  /** A base logger; it keeps a backtrace if its level isn't Off. */
  datatype Base = Base(id: nat, enabled: bool, minimum: level, backtrace: level)

  datatype Logger =
    | Leaf(base: Base)
    | Category(enabled: bool, name: string, own: Own, log: Logger)
    | Multi(enabled: bool, minimum: level, sinks: seq<Logger>)

  datatype Effect = Wrote(id: nat, record: Record) | Kept(id: nat, record: Record)

  /** The level check, which lets in what the logger writes and what its backtrace keeps. */
  predicate PassesLevelGate(r: Record, enabled: bool, minimum: level, backtrace: level) {
    if r.forced then r.level != OFF && enabled
    else
      var gate := GateLevelOf(PackLevels(if r.categoryLevel.Own? then r.categoryLevel.level else minimum, backtrace));
      enabled && r.level != OFF && r.level >= gate
  }

  function WithCategory(r: Record, name: string, own: Own): Record {
    var named := if r.category == "" then r.(category := name) else r;
    if named.categoryLevel.Unset? then named.(categoryLevel := own) else named
  }

  /** The record as a multi-log passes it to its sinks. */
  function ForSinks(r: Record): Record {
    r.(categoryLevel := Unset)
  }

  predicate ShouldLog(log: Logger, r: Record)
    decreases log
  {
    match log
    case Leaf(base) => PassesLevelGate(r, base.enabled, base.minimum, base.backtrace)
    case Category(enabled, name, own, inner) => enabled && ShouldLog(inner, WithCategory(r, name, own))
    case Multi(enabled, minimum, sinks) => PassesLevelGate(r, enabled, minimum, OFF) && AnyShouldLog(sinks, ForSinks(r))
  }

  predicate AnyShouldLog(sinks: seq<Logger>, r: Record)
    decreases sinks
  {
    sinks != [] && (ShouldLog(sinks[0], r) || AnyShouldLog(sinks[1..], r))
  }

  /** The last step of a base logger's Write(): below the minimum level, only the backtrace let the entry in. */
  function WriteOrKeep(base: Base, r: Record): seq<Effect> {
    if !r.forced && r.level < (if r.categoryLevel.Own? then r.categoryLevel.level else base.minimum) then
      if base.backtrace == OFF then [] else [Kept(base.id, r)]
    else [Wrote(base.id, r)]
  }

  function Write(log: Logger, r: Record): seq<Effect>
    decreases log
  {
    match log
    case Leaf(base) => if PassesLevelGate(r, base.enabled, base.minimum, base.backtrace) then WriteOrKeep(base, r) else []
    case Category(enabled, name, own, inner) => if enabled then Write(inner, WithCategory(r, name, own)) else []
    case Multi(enabled, minimum, sinks) =>
      if !PassesLevelGate(r, enabled, minimum, OFF) then []
      else if !r.forced && r.level < (if r.categoryLevel.Own? then r.categoryLevel.level else minimum) then []
      else WriteAll(sinks, ForSinks(r))
  }

  function WriteAll(sinks: seq<Logger>, r: Record): seq<Effect>
    decreases sinks
  {
    if sinks == [] then [] else Write(sinks[0], r) + WriteAll(sinks[1..], r)
  }

  // ---- The loops ---------------------------------------------------------------------

  method AskLoggers(log: Logger, r: Record) returns (should: bool)
    ensures should == ShouldLog(log, r)
    decreases log
  {
    match log
    case Leaf(base) => should := PassesLevelGate(r, base.enabled, base.minimum, base.backtrace);
    case Category(enabled, name, own, inner) =>
      should := false;
      if enabled {
        should := AskLoggers(inner, WithCategory(r, name, own));
      }
    case Multi(enabled, minimum, sinks) =>
      if !PassesLevelGate(r, enabled, minimum, OFF) {
        return false;
      }
      assert sinks[0..] == sinks;
      for i := 0 to |sinks|
        invariant AnyShouldLog(sinks, ForSinks(r)) == AnyShouldLog(sinks[i..], ForSinks(r))
      {
        assert sinks[i..][1..] == sinks[i + 1..];
        should := AskLoggers(sinks[i], ForSinks(r));
        if should {
          return true;
        }
      }
      should := false;
  }

  method WriteLoggers(log: Logger, r: Record) returns (effects: seq<Effect>)
    ensures effects == Write(log, r)
    ensures AreEffects(effects, Paths(log), r)
    decreases log
  {
    hide AreEffects;
    WrittenAlongThePaths(log, r);
    effects := [];
    match log
    case Leaf(base) =>
      if PassesLevelGate(r, base.enabled, base.minimum, base.backtrace) {
        effects := WriteOrKeep(base, r);
      }
    case Category(enabled, name, own, inner) =>
      if enabled {
        effects := WriteLoggers(inner, WithCategory(r, name, own));
      }
    case Multi(enabled, minimum, sinks) =>
      if !PassesLevelGate(r, enabled, minimum, OFF) ||
         (!r.forced && r.level < (if r.categoryLevel.Own? then r.categoryLevel.level else minimum)) {
        return;
      }
      assert sinks[0..] == sinks;
      for i := 0 to |sinks|
        invariant effects + WriteAll(sinks[i..], ForSinks(r)) == WriteAll(sinks, ForSinks(r))
      {
        assert sinks[i..][1..] == sinks[i + 1..];
        var more := WriteLoggers(sinks[i], ForSinks(r));
        assert effects + (more + WriteAll(sinks[i + 1..], ForSinks(r))) == (effects + more) + WriteAll(sinks[i + 1..], ForSinks(r));
        effects := effects + more;
      }
      assert sinks[|sinks|..] == [];
  }

  // ---- The check says what the write does ----------------------------------------------

  lemma {:induction false} AskedIsWritten(log: Logger, r: Record)
    ensures ShouldLog(log, r) <==> Write(log, r) != []
    decreases log
  {
    match log
    case Leaf(base) => GateLetsIn(r, base.enabled, base.minimum, base.backtrace);
    case Category(enabled, name, own, inner) => AskedIsWritten(inner, WithCategory(r, name, own));
    case Multi(enabled, minimum, sinks) =>
      GateLetsIn(r, enabled, minimum, OFF);
      AskedAreWritten(sinks, ForSinks(r));
  }

  lemma {:induction false} AskedAreWritten(sinks: seq<Logger>, r: Record)
    ensures AnyShouldLog(sinks, r) <==> WriteAll(sinks, r) != []
    decreases sinks
  {
    if sinks != [] {
      AskedIsWritten(sinks[0], r);
      AskedAreWritten(sinks[1..], r);
    }
  }

  function MinimumFor(r: Record, minimum: level): level {
    if r.categoryLevel.Own? then r.categoryLevel.level else minimum
  }

  /** The gate lets in what meets the minimum level or, unless that is Off, what the backtrace keeps. */
  lemma GateLetsIn(r: Record, enabled: bool, minimum: level, backtrace: level)
    ensures PassesLevelGate(r, enabled, minimum, backtrace) <==>
      enabled && r.level != OFF &&
      (r.forced || r.level >= MinimumFor(r, minimum) || (r.level >= backtrace && MinimumFor(r, minimum) != OFF))
  {
    PackedLevels(MinimumFor(r, minimum), backtrace);
  }

  // ---- Which level decides ----------------------------------------------------------------

  /** The loggers between the one asked and a base logger. */
  datatype Node = InCategory(enabled: bool, name: string, own: Own) | InMulti(enabled: bool, minimum: level)
  datatype Path = Path(nodes: seq<Node>, base: Base)

  function Behind(node: Node, paths: seq<Path>): (behind: seq<Path>)
    ensures |behind| == |paths|
    ensures forall i :: 0 <= i < |paths| ==> behind[i] == Path([node] + paths[i].nodes, paths[i].base)
  {
    if paths == [] then [] else [Path([node] + paths[0].nodes, paths[0].base)] + Behind(node, paths[1..])
  }

  function Paths(log: Logger): seq<Path>
    decreases log
  {
    match log
    case Leaf(base) => [Path([], base)]
    case Category(enabled, name, own, inner) => Behind(InCategory(enabled, name, own), Paths(inner))
    case Multi(enabled, minimum, sinks) => Behind(InMulti(enabled, minimum), AllPaths(sinks))
  }

  function AllPaths(sinks: seq<Logger>): seq<Path>
    decreases sinks
  {
    if sinks == [] then [] else Paths(sinks[0]) + AllPaths(sinks[1..])
  }

  /** The level that takes the place of a logger's own minimum behind 'nodes': of the categories since the last
      multi-log, the outermost that has one. The record's own comes first, unless there is a multi-log. */
  function DecidingLevel(nodes: seq<Node>, given: Own): Own {
    if nodes == [] then given
    else
      var n := |nodes| - 1;
      match nodes[n]
      case InMulti(_, _) => Unset
      case InCategory(_, _, own) =>
        var outer := DecidingLevel(nodes[..n], given);
        if outer.Own? then outer else own
  }

  /** Outermost: none of the categories between the last multi-log and the one that decides has a level. */
  lemma {:induction false} OutermostDecides(nodes: seq<Node>, given: Own, k: nat)
    requires k < |nodes| && nodes[k].InCategory? && nodes[k].own.Own?
    requires DecidingLevel(nodes[..k], given).Unset?
    requires forall i :: k < i < |nodes| ==> nodes[i].InCategory?
    ensures DecidingLevel(nodes, given) == nodes[k].own
    decreases |nodes|
  {
    var n := |nodes| - 1;
    if k < n {
      assert nodes[..n][..k] == nodes[..k];
      OutermostDecides(nodes[..n], given, k);
    }
  }

  predicate Meets(r: Record, decides: Own, minimum: level) {
    r.forced || r.level >= (if decides.Own? then decides.level else minimum)
  }

  /** Every logger on the way is enabled and every multi-log lets the entry by; the base logger writes or keeps it. */
  ghost predicate LetsThrough(path: Path, r: Record) {
    var decides := DecidingLevel(path.nodes, r.categoryLevel);
    && r.level != OFF
    && (forall k :: 0 <= k < |path.nodes| ==> path.nodes[k].enabled)
    && (forall k :: 0 <= k < |path.nodes| && path.nodes[k].InMulti? ==>
          Meets(r, DecidingLevel(path.nodes[..k], r.categoryLevel), path.nodes[k].minimum))
    && path.base.enabled
    && (Meets(r, decides, path.base.minimum) ||
        (r.level >= path.base.backtrace && (if decides.Own? then decides.level else path.base.minimum) != OFF))
  }

  lemma {:induction false} DecidesFromNext(node: Node, nodes: seq<Node>, given: Own)
    ensures var next := if node.InMulti? then Unset else if given.Own? then given else node.own;
      DecidingLevel([node] + nodes, given) == DecidingLevel(nodes, next)
    decreases |nodes|
  {
    var all := [node] + nodes;
    if nodes == [] {
      assert all[..0] == [] && all == [node];
    } else {
      var n := |nodes| - 1;
      assert all[..n + 1] == [node] + nodes[..n];
      DecidesFromNext(node, nodes[..n], given);
    }
  }

  function Passed(node: Node, r: Record): Record {
    match node
    case InCategory(_, name, own) => WithCategory(r, name, own)
    case InMulti(_, _) => ForSinks(r)
  }

  predicate NodeLets(node: Node, r: Record) {
    node.enabled && r.level != OFF && (node.InMulti? ==> Meets(r, r.categoryLevel, node.minimum))
  }

  lemma DecidesBehind(node: Node, nodes: seq<Node>, r: Record, k: nat)
    requires k <= |nodes|
    ensures DecidingLevel(([node] + nodes)[..k + 1], r.categoryLevel) == DecidingLevel(nodes[..k], Passed(node, r).categoryLevel)
  {
    assert ([node] + nodes)[..k + 1] == [node] + nodes[..k];
    DecidesFromNext(node, nodes[..k], r.categoryLevel);
  }

  lemma LetsThroughNext(node: Node, path: Path, r: Record)
    requires r.level != OFF
    ensures LetsThrough(Path([node] + path.nodes, path.base), r) <==> NodeLets(node, r) && LetsThrough(path, Passed(node, r))
  {
    hide DecidingLevel, WithCategory;
    var nodes := path.nodes;
    var all, next := [node] + nodes, Passed(node, r);
    SameRecord(node, r);
    DecidesBehind(node, nodes, r, |nodes|);
    assert all[..|nodes| + 1] == all && nodes[..|nodes|] == nodes;
    FirstDecides(all, r.categoryLevel);
    forall k | 0 <= k < |nodes|
      ensures all[k + 1] == nodes[k]
      ensures DecidingLevel(all[..k + 1], r.categoryLevel) == DecidingLevel(nodes[..k], next.categoryLevel)
    {
      DecidesBehind(node, nodes, r, k);
    }
    if LetsThrough(Path(all, path.base), r) {
      assert all[0].enabled;
      forall k | 0 <= k < |nodes|
        ensures nodes[k].enabled
        ensures nodes[k].InMulti? ==> Meets(next, DecidingLevel(nodes[..k], next.categoryLevel), nodes[k].minimum)
      {
        assert all[k + 1].enabled;
      }
    }
    if NodeLets(node, r) && LetsThrough(path, next) {
      forall k | 0 <= k < |all|
        ensures all[k].enabled
        ensures all[k].InMulti? ==> Meets(r, DecidingLevel(all[..k], r.categoryLevel), all[k].minimum)
      {
        assert k > 0 ==> all[k] == nodes[k - 1] && nodes[k - 1].enabled;
      }
    }
  }

  lemma FirstDecides(nodes: seq<Node>, given: Own)
    ensures DecidingLevel(nodes[..0], given) == given
  {
  }

  lemma SameRecord(node: Node, r: Record)
    ensures Passed(node, r).level == r.level && Passed(node, r).forced == r.forced
  {
  }

  ghost predicate AnyLetsThrough(paths: seq<Path>, r: Record) {
    exists i :: 0 <= i < |paths| && LetsThrough(paths[i], r)
  }

  lemma BehindLetsThrough(node: Node, paths: seq<Path>, r: Record)
    requires r.level != OFF
    ensures AnyLetsThrough(Behind(node, paths), r) <==> NodeLets(node, r) && AnyLetsThrough(paths, Passed(node, r))
  {
    var behind := Behind(node, paths);
    forall i | 0 <= i < |paths|
      ensures LetsThrough(behind[i], r) <==> NodeLets(node, r) && LetsThrough(paths[i], Passed(node, r))
    {
      LetsThroughNext(node, paths[i], r);
    }
  }

  lemma AnyJoins(a: seq<Path>, b: seq<Path>, r: Record)
    ensures AnyLetsThrough(a + b, r) <==> AnyLetsThrough(a, r) || AnyLetsThrough(b, r)
  {
    if AnyLetsThrough(a, r) {
      var i :| 0 <= i < |a| && LetsThrough(a[i], r);
      assert (a + b)[i] == a[i];
    }
    if AnyLetsThrough(b, r) {
      var i :| 0 <= i < |b| && LetsThrough(b[i], r);
      assert (a + b)[|a| + i] == b[i];
    }
  }

  lemma {:induction false} OffIsNotLogged(log: Logger, r: Record)
    requires r.level == OFF
    ensures !ShouldLog(log, r)
    decreases log
  {
    match log
    case Leaf(base) => GateLetsIn(r, base.enabled, base.minimum, base.backtrace);
    case Category(_, name, own, inner) => OffIsNotLogged(inner, WithCategory(r, name, own));
    case Multi(enabled, minimum, _) => GateLetsIn(r, enabled, minimum, OFF);
  }

  /** A tree logs a record if and only if the way to one of its base loggers lets it through. */
  lemma {:induction false} LoggedThroughAPath(log: Logger, r: Record)
    ensures ShouldLog(log, r) <==> AnyLetsThrough(Paths(log), r)
    decreases log
  {
    if r.level == OFF {
      OffIsNotLogged(log, r);
    } else {
      match log
      case Leaf(base) =>
        GateLetsIn(r, base.enabled, base.minimum, base.backtrace);
        assert Paths(log)[0] == Path([], base);
        assert LetsThrough(Path([], base), r) <==> PassesLevelGate(r, base.enabled, base.minimum, base.backtrace);
      case Category(enabled, name, own, inner) =>
        LoggedThroughAPath(inner, WithCategory(r, name, own));
        BehindLetsThrough(InCategory(enabled, name, own), Paths(inner), r);
      case Multi(enabled, minimum, sinks) =>
        GateLetsIn(r, enabled, minimum, OFF);
        AllLoggedThroughPaths(sinks, ForSinks(r));
        BehindLetsThrough(InMulti(enabled, minimum), AllPaths(sinks), r);
    }
  }

  lemma {:induction false} AllLoggedThroughPaths(sinks: seq<Logger>, r: Record)
    ensures AnyShouldLog(sinks, r) <==> AnyLetsThrough(AllPaths(sinks), r)
    decreases sinks
  {
    if sinks != [] {
      LoggedThroughAPath(sinks[0], r);
      AllLoggedThroughPaths(sinks[1..], r);
      AnyJoins(Paths(sinks[0]), AllPaths(sinks[1..]), r);
    }
  }

  // ---- What is written and kept, and where -----------------------------------------------------

  predicate IsNamed(node: Node) {
    node.InCategory? && node.name != ""
  }

  predicate IsOutermostNamed(nodes: seq<Node>, k: nat) {
    k < |nodes| && IsNamed(nodes[k]) && forall j :: 0 <= j < k ==> !IsNamed(nodes[j])
  }

  /** The record's own category or else that of the outermost category on the way that has a name. */
  ghost predicate IsCategoryOn(category: string, nodes: seq<Node>, given: string) {
    if given != "" then category == given
    else
      && (forall k: nat :: IsOutermostNamed(nodes, k) ==> category == nodes[k].name)
      && ((forall k :: 0 <= k < |nodes| ==> !IsNamed(nodes[k])) ==> category == "")
  }

  /** The path's base logger writes the record if it meets the level that decides there, and otherwise keeps it. */
  ghost predicate IsEffect(effect: Effect, path: Path, r: Record) {
    var decides := DecidingLevel(path.nodes, r.categoryLevel);
    && effect.id == path.base.id
    && effect.Wrote? == Meets(r, decides, path.base.minimum)
    && effect.record.level == r.level && effect.record.forced == r.forced && effect.record.categoryLevel == decides
    && IsCategoryOn(effect.record.category, path.nodes, r.category)
  }

  /** One effect for each path that lets the record through, in the order of the paths. */
  ghost predicate AreEffects(effects: seq<Effect>, paths: seq<Path>, r: Record)
    decreases |paths|
  {
    if paths == [] then effects == []
    else if LetsThrough(paths[0], r) then
      effects != [] && IsEffect(effects[0], paths[0], r) && AreEffects(effects[1..], paths[1..], r)
    else AreEffects(effects, paths[1..], r)
  }

  lemma {:induction false} EffectsJoin(a: seq<Effect>, p: seq<Path>, b: seq<Effect>, q: seq<Path>, r: Record)
    requires AreEffects(a, p, r) && AreEffects(b, q, r)
    ensures AreEffects(a + b, p + q, r)
    decreases |p|
  {
    hide LetsThrough, IsEffect;
    if p == [] {
      assert a + b == b && p + q == q;
    } else {
      assert (p + q)[1..] == p[1..] + q;
      if LetsThrough(p[0], r) {
        assert (a + b)[1..] == a[1..] + b;
        EffectsJoin(a[1..], p[1..], b, q, r);
      } else {
        EffectsJoin(a, p[1..], b, q, r);
      }
    }
  }

  lemma CategoryBehind(category: string, node: Node, nodes: seq<Node>, given: string)
    requires IsCategoryOn(category, nodes, if given == "" && node.InCategory? then node.name else given)
    ensures IsCategoryOn(category, [node] + nodes, given)
  {
    var all := [node] + nodes;
    assert forall k :: 0 <= k < |nodes| ==> all[k + 1] == nodes[k];
    if given == "" {
      forall k: nat | IsOutermostNamed(all, k) ensures category == all[k].name {
        if k > 0 {
          assert !IsNamed(all[0]);
          assert forall j :: 0 <= j < k - 1 ==> all[j + 1] == nodes[j];
          assert IsOutermostNamed(nodes, k - 1);
        }
      }
      if forall k :: 0 <= k < |all| ==> !IsNamed(all[k]) {
        assert !IsNamed(all[0]);
        assert forall k :: 0 <= k < |nodes| ==> !IsNamed(nodes[k]);
      }
    }
  }

  lemma EffectBehind(effect: Effect, node: Node, path: Path, r: Record)
    requires IsEffect(effect, path, Passed(node, r))
    ensures IsEffect(effect, Path([node] + path.nodes, path.base), r)
  {
    hide IsCategoryOn, DecidingLevel;
    SameRecord(node, r);
    DecidesBehind(node, path.nodes, r, |path.nodes|);
    assert ([node] + path.nodes)[..|path.nodes| + 1] == [node] + path.nodes && path.nodes[..|path.nodes|] == path.nodes;
    CategoryBehind(effect.record.category, node, path.nodes, r.category);
  }

  lemma {:induction false} EffectsBehind(effects: seq<Effect>, node: Node, paths: seq<Path>, r: Record)
    requires r.level != OFF && NodeLets(node, r) && AreEffects(effects, paths, Passed(node, r))
    ensures AreEffects(effects, Behind(node, paths), r)
    decreases |paths|
  {
    hide LetsThrough, IsEffect, NodeLets;
    if paths != [] {
      var behind := Behind(node, paths);
      assert behind[1..] == Behind(node, paths[1..]);
      LetsThroughNext(node, paths[0], r);
      if LetsThrough(paths[0], Passed(node, r)) {
        EffectBehind(effects[0], node, paths[0], r);
        EffectsBehind(effects[1..], node, paths[1..], r);
      } else {
        EffectsBehind(effects, node, paths[1..], r);
      }
    }
  }

  lemma {:induction false} NoEffects(paths: seq<Path>, r: Record)
    requires forall i :: 0 <= i < |paths| ==> !LetsThrough(paths[i], r)
    ensures AreEffects([], paths, r)
    decreases |paths|
  {
    hide LetsThrough;
    if paths != [] {
      NoEffects(paths[1..], r);
    }
  }

  lemma NothingBehind(node: Node, paths: seq<Path>, r: Record)
    requires r.level == OFF || !NodeLets(node, r)
    ensures AreEffects([], Behind(node, paths), r)
  {
    forall i | 0 <= i < |paths| ensures !LetsThrough(Behind(node, paths)[i], r) {
      if r.level != OFF { LetsThroughNext(node, paths[i], r); }
    }
    NoEffects(Behind(node, paths), r);
  }

  lemma BaseEffect(base: Base, r: Record)
    ensures AreEffects(if PassesLevelGate(r, base.enabled, base.minimum, base.backtrace) then WriteOrKeep(base, r) else [],
                       [Path([], base)], r)
  {
    GateLetsIn(r, base.enabled, base.minimum, base.backtrace);
    hide PassesLevelGate;
    assert [Path([], base)][1..] == [];
  }

  /** A tree writes or keeps a record exactly once for each way to a base logger that lets it through, in their order:
      there, with the level that decides there, and with the category's name. */
  lemma {:induction false} WrittenAlongThePaths(log: Logger, r: Record)
    ensures AreEffects(Write(log, r), Paths(log), r)
    decreases log
  {
    hide AreEffects, PassesLevelGate, WriteOrKeep;
    match log
    case Leaf(base) => BaseEffect(base, r);
    case Category(enabled, name, own, inner) =>
      var node, next := InCategory(enabled, name, own), WithCategory(r, name, own);
      if enabled && r.level != OFF {
        WrittenAlongThePaths(inner, next);
        EffectsBehind(Write(inner, next), node, Paths(inner), r);
      } else {
        if enabled { OffIsNotWritten(log, r); }
        NothingBehind(node, Paths(inner), r);
      }
    case Multi(enabled, minimum, sinks) =>
      GateLetsIn(r, enabled, minimum, OFF);
      if NodeLets(InMulti(enabled, minimum), r) {
        AllWrittenAlongThePaths(sinks, ForSinks(r));
        EffectsBehind(WriteAll(sinks, ForSinks(r)), InMulti(enabled, minimum), AllPaths(sinks), r);
      } else {
        NothingBehind(InMulti(enabled, minimum), AllPaths(sinks), r);
      }
  }

  lemma OffIsNotWritten(log: Logger, r: Record)
    requires r.level == OFF
    ensures Write(log, r) == []
  {
    OffIsNotLogged(log, r);
    AskedIsWritten(log, r);
  }

  lemma {:induction false} AllWrittenAlongThePaths(sinks: seq<Logger>, r: Record)
    ensures AreEffects(WriteAll(sinks, r), AllPaths(sinks), r)
    decreases sinks
  {
    if sinks == [] {
      assert AreEffects([], [], r);
    } else {
      hide AreEffects;
      WrittenAlongThePaths(sinks[0], r);
      AllWrittenAlongThePaths(sinks[1..], r);
      EffectsJoin(Write(sinks[0], r), Paths(sinks[0]), WriteAll(sinks[1..], r), AllPaths(sinks[1..]), r);
    }
  }
}
