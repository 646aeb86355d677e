/** The loggers a crash flushes, as a doubly linked list through the loggers themselves. */
module CrashList {

  class TListedLog {
    var previous: TListedLog?
    var next: TListedLog?
    var isOnCrashList: bool

    constructor ()
      ensures previous == null && next == null && !isOnCrashList
    {
      previous, next, isOnCrashList := null, null, false;
    }
  }

  /** 'log' without its place in the list. */
  function Without(list: seq<TListedLog>, log: TListedLog): seq<TListedLog> {
    if list == [] then [] else if list[0] == log then list[1..] else [list[0]] + Without(list[1..], log)
  }

  /** The logger at 'i' points to its neighbours. */
  ghost predicate LinkedAt(list: seq<TListedLog>, i: nat)
    requires i < |list|
    reads list[i]
  {
    && list[i].previous == (if i == 0 then null else list[i - 1])
    && list[i].next == (if i + 1 == |list| then null else list[i + 1])
  }

  ghost predicate Linked(list: seq<TListedLog>)
    reads list
  {
    forall i: nat :: i < |list| ==> LinkedAt(list, i)
  }

  predicate Distinct(list: seq<TListedLog>) {
    forall i, j :: 0 <= i < j < |list| ==> list[i] != list[j]
  }

  class TCrashRegistry {
    var first: TListedLog?
    /** The loggers on the list, in its order, and all loggers there are. */
    ghost var list: seq<TListedLog>
    ghost var all: set<TListedLog>

    ghost predicate Valid()
      reads this, all, list
    {
      && Distinct(list) && Linked(list)
      && (forall i :: 0 <= i < |list| ==> list[i] in all)
      && (forall log :: log in all ==> (log.isOnCrashList <==> log in list))
      && first == (if list == [] then null else list[0])
    }

    constructor ()
      ensures Valid() && list == [] && all == {}
    {
      first, list, all := null, [], {};
    }

    /** A logger that is made isn't on the list. */
    method Make() returns (log: TListedLog)
      requires Valid()
      modifies this`all
      ensures Valid() && fresh(log) && all == old(all) + {log} && list == old(list)
    {
      log := new TListedLog();
      all := all + {log};
      assert forall i: nat :: i < |list| ==> old(LinkedAt(list, i)) ==> LinkedAt(list, i);
      assert log !in list;
    }

    /** Puts the logger at the front, unless it is on the list. */
    method Register(log: TListedLog)
      requires Valid() && log in all
      modifies this, all
      ensures Valid() && all == old(all)
      ensures list == if log in old(list) then old(list) else [log] + old(list)
    {
      if log.isOnCrashList {
        return;
      }
      ghost var before := list;
      assert forall i: nat :: i < |before| ==> LinkedAt(before, i);
      log.previous := null;
      log.next := first;
      if first != null {
        first.previous := log;
      }
      first := log;
      log.isOnCrashList := true;
      list := [log] + list;
      forall i: nat | i < |list| ensures LinkedAt(list, i) {
        if i > 0 {
          assert old(LinkedAt(before, i - 1)) && list[i] == before[i - 1];
        }
      }
      assert Distinct(list);
    }

    /** Takes the logger off the list, wherever it stands. */
    method Unregister(log: TListedLog)
      requires Valid() && log in all
      modifies this, all
      ensures Valid() && all == old(all)
      ensures list == Without(old(list), log) && log !in list
    {
      hide Distinct, Linked, Without;
      if !log.isOnCrashList {
        NotThere(list, log);
        return;
      }
      ghost var before := list;
      ghost var i: nat :| i < |list| && list[i] == log;
      WithoutAt(before, i);
      Shortened(before, i);
      Unlink(log, i);
      log.isOnCrashList := false;
      list := before[..i] + before[i + 1..];
    }

    /** Takes the logger out of the chain. */
    method Unlink(log: TListedLog, ghost i: nat)
      requires Valid() && i < |list| && list[i] == log
      modifies this`first, all
      ensures var rest := list[..i] + list[i + 1..];
        Linked(rest) && first == (if rest == [] then null else rest[0])
      ensures forall o :: o in all ==> o.isOnCrashList == old(o.isOnCrashList)
    {
      hide Distinct;
      assert LinkedAt(list, i);
      NeighboursDiffer(list, i);
      ghost var p, n := log.previous, log.next;
      assert p == Neighbour(list, i - 1) && n == Neighbour(list, i + 1);
      Bypass(log);
      forall j: nat | j < |list| && j != i ensures SkipsAt(list, i, j) {
        assert old(LinkedAt(list, j));
        DifferAt(list, i, j);
        assert list[j].next == if list[j] == p then n else old(list[j].next);
        assert list[j].previous == if list[j] == n then p else old(list[j].previous);
        SkipsPast(list, i, j, old(list[j].previous), old(list[j].next));
      }
      RestIsLinked(list, i);
    }

    /** Its neighbours point past the logger, which points to none. */
    method Bypass(log: TListedLog)
      requires log.previous != log && log.next != log && log in all
      requires (log.previous != null ==> log.previous in all) && (log.next != null ==> log.next in all)
      modifies this`first, all
      ensures first == if old(log.previous) == null then old(log.next) else old(first)
      ensures log.previous == null && log.next == null
      ensures forall o :: o in all ==> o.isOnCrashList == old(o.isOnCrashList)
      ensures forall o :: o in all && o != log ==> o.next == if o == old(log.previous) then old(log.next) else old(o.next)
      ensures forall o :: o in all && o != log ==> o.previous == if o == old(log.next) then old(log.previous) else old(o.previous)
    {
      if log.previous != null {
        log.previous.next := log.next;
      } else {
        first := log.next;
      }
      if log.next != null {
        log.next.previous := log.previous;
      }
      log.previous := null;
      log.next := null;
    }

    /** A crash reaches each logger on the list once, in the list's order. */
    method Visit() returns (visited: seq<TListedLog>)
      requires Valid()
      ensures visited == list
    {
      visited := [];
      var log := first;
      while log != null
        invariant |visited| <= |list| && visited == list[..|visited|]
        invariant log == if |visited| == |list| then null else list[|visited|]
        decreases |list| - |visited|
      {
        assert LinkedAt(list, |visited|);
        visited := visited + [log];
        log := log.next;
      }
    }
  }

  /** The logger at 'j' points to its neighbours other than the one at 'i'. */
  ghost predicate SkipsAt(list: seq<TListedLog>, i: nat, j: nat)
    requires i < |list| && j < |list|
    reads list[j]
  {
    var before, after := if j == i + 1 then i else j, if j + 1 == i then i + 1 else j + 1;
    && list[j].previous == (if before == 0 then null else list[before - 1])
    && list[j].next == (if after == |list| then null else list[after])
  }

  ghost predicate LinkedPast(list: seq<TListedLog>, i: nat)
    requires i < |list|
    reads list
  {
    forall j: nat :: j < |list| && j != i ==> SkipsAt(list, i, j)
  }

  lemma RestIsLinked(list: seq<TListedLog>, i: nat)
    requires i < |list| && LinkedPast(list, i)
    ensures Linked(list[..i] + list[i + 1..])
  {
    var rest := list[..i] + list[i + 1..];
    forall j: nat | j < |rest| ensures LinkedAt(rest, j) {
      assert SkipsAt(list, i, if j < i then j else j + 1);
    }
  }

  function Neighbour(list: seq<TListedLog>, i: int): TListedLog? {
    if 0 <= i < |list| then list[i] else null
  }

  lemma NeighboursDiffer(list: seq<TListedLog>, i: nat)
    requires Distinct(list) && i < |list|
    ensures Neighbour(list, i - 1) != list[i] && Neighbour(list, i + 1) != list[i]
  {
  }

  /** What bypassing the logger at 'i' makes of the one at 'j', which pointed to its neighbours. */
  lemma SkipsPast(list: seq<TListedLog>, i: nat, j: nat, previous: TListedLog?, next: TListedLog?)
    requires Distinct(list) && i < |list| && j < |list| && i != j
    requires previous == Neighbour(list, j - 1) && next == Neighbour(list, j + 1)
    requires list[j].next == if list[j] == Neighbour(list, i - 1) then Neighbour(list, i + 1) else next
    requires list[j].previous == if list[j] == Neighbour(list, i + 1) then Neighbour(list, i - 1) else previous
    ensures SkipsAt(list, i, j)
  {
  }

  lemma DifferAt(list: seq<TListedLog>, i: nat, j: nat)
    requires Distinct(list) && i < |list| && j < |list|
    ensures list[i] == list[j] <==> i == j
  {
  }

  lemma Shortened(list: seq<TListedLog>, i: nat)
    requires Distinct(list) && i < |list|
    ensures var rest := list[..i] + list[i + 1..];
      Distinct(rest) && forall log :: log in rest <==> log in list && log != list[i]
  {
    var rest := list[..i] + list[i + 1..];
    forall log | log in list && log != list[i] ensures log in rest {
      var k :| 0 <= k < |list| && list[k] == log;
      assert rest[if k < i then k else k - 1] == log;
    }
  }

  lemma {:induction false} NotThere(list: seq<TListedLog>, log: TListedLog)
    requires log !in list
    ensures Without(list, log) == list
  {
    if list != [] {
      NotThere(list[1..], log);
    }
  }

  lemma {:induction false} WithoutAt(list: seq<TListedLog>, i: nat)
    requires i < |list| && Distinct(list)
    ensures Without(list, list[i]) == list[..i] + list[i + 1..]
    decreases |list|
  {
    if i > 0 {
      WithoutAt(list[1..], i - 1);
      assert list[1..][..i - 1] == list[1..i];
    }
  }
}
