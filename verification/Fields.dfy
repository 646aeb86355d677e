/** An entry's fields and its scopes': each key once, where it first appears, with its last value. */
module Fields {

  datatype Value = Scalar(n: int) | Text(text: string)
  datatype Field = Field(key: string, value: Value)

  /** The innermost scope around an entry, or none. */
  datatype Scope = NoScope | Scope(parent: Scope, fields: seq<Field>)

  /** All fields, the outermost scope's first and the entry's own last. */
  function All(scope: Scope, fields: seq<Field>): seq<Field>
    decreases scope
  {
    match scope
    case NoScope => fields
    case Scope(parent, outer) => All(parent, outer) + fields
  }

  // ---- What is visited -----------------------------------------------------------

  predicate AppearsBefore(all: seq<Field>, key: string, i: nat)
    requires i <= |all|
  {
    exists j :: 0 <= j < i && all[j].key == key
  }

  /** The last field with the key of the one at 'i'. */
  function LastFrom(all: seq<Field>, i: nat): (last: nat)
    requires i < |all|
    ensures i <= last < |all| && all[last].key == all[i].key
  {
    LastUpTo(all, i, |all|)
  }

  function LastUpTo(all: seq<Field>, i: nat, end: nat): (last: nat)
    requires i < end <= |all|
    ensures i <= last < end && all[last].key == all[i].key
    ensures forall j :: last < j < end ==> all[j].key != all[i].key
    decreases end
  {
    if all[end - 1].key == all[i].key then end - 1 else LastUpTo(all, i, end - 1)
  }

  /** The fields visited up to the one at 'i'. */
  function MergedUpTo(all: seq<Field>, i: nat): seq<Field>
    requires i <= |all|
  {
    if i == 0 then []
    else if AppearsBefore(all, all[i - 1].key, i - 1) then MergedUpTo(all, i - 1)
    else MergedUpTo(all, i - 1) + [all[LastFrom(all, i - 1)]]
  }

  function Merged(all: seq<Field>): seq<Field> {
    MergedUpTo(all, |all|)
  }

  /** A later value takes the place of an earlier one. */
  function MapOf(all: seq<Field>): map<string, Value> {
    if all == [] then map[] else MapOf(all[..|all| - 1])[all[|all| - 1].key := all[|all| - 1].value]
  }

  predicate DistinctKeys(fields: seq<Field>) {
    forall i, j :: 0 <= i < j < |fields| ==> fields[i].key != fields[j].key
  }

  // ---- What that means ---------------------------------------------------------------

  /** 'at' are, in order, places where a key first appears among the first 'i' fields. */
  ghost predicate AreFirst(all: seq<Field>, i: nat, at: seq<nat>)
    requires i <= |all|
  {
    && (forall k :: 0 <= k < |at| ==> at[k] < i && !AppearsBefore(all, all[at[k]].key, at[k]))
    && (forall k, l :: 0 <= k < l < |at| ==> at[k] < at[l])
  }

  /** 'merged' holds the last field with each of these keys, and no key is missing. */
  ghost predicate IsMerge(all: seq<Field>, merged: seq<Field>, at: seq<nat>) {
    && AreFirst(all, |all|, at) && |at| == |merged|
    && (forall k :: 0 <= k < |at| ==> merged[k] == all[LastFrom(all, at[k])])
    && (forall i :: 0 <= i < |all| ==> AppearsBefore(merged, all[i].key, |merged|))
  }

  /** Each key is visited once, in the order of the first appearances, with its last value. */
  lemma {:induction false} MergedIsMerge(all: seq<Field>) returns (at: seq<nat>)
    ensures IsMerge(all, Merged(all), at) && DistinctKeys(Merged(all))
  {
    at := MergePlaces(all, |all|);
    forall k, l | 0 <= k < l < |at| ensures Merged(all)[k].key != Merged(all)[l].key {
      KeysDiffer(all, at[k], at[l]);
    }
    forall i | 0 <= i < |all| ensures AppearsBefore(Merged(all), all[i].key, |Merged(all)|) {
      MergedKeys(all, |all|, all[i].key);
    }
  }

  lemma KeysDiffer(all: seq<Field>, i: nat, j: nat)
    requires i < j < |all| && !AppearsBefore(all, all[j].key, j)
    ensures all[LastFrom(all, i)].key != all[LastFrom(all, j)].key
  {
  }

  ghost predicate ArePlaces(all: seq<Field>, i: nat, at: seq<nat>)
    requires i <= |all|
  {
    && AreFirst(all, i, at) && |at| == |MergedUpTo(all, i)|
    && forall k :: 0 <= k < |at| ==> MergedUpTo(all, i)[k] == all[LastFrom(all, at[k])]
  }

  lemma AddsPlace(all: seq<Field>, i: nat, at: seq<nat>)
    requires i < |all| && ArePlaces(all, i, at)
    ensures ArePlaces(all, i + 1, if AppearsBefore(all, all[i].key, i) then at else at + [i])
  {
    AddsFirst(all, i, at);
    hide AppearsBefore, LastFrom, AreFirst;
  }

  lemma NoPlaces(all: seq<Field>)
    ensures ArePlaces(all, 0, [])
  {
  }

  lemma {:induction false} MergePlaces(all: seq<Field>, i: nat) returns (at: seq<nat>)
    requires i <= |all|
    ensures ArePlaces(all, i, at)
  {
    hide ArePlaces, AppearsBefore;
    if i == 0 {
      at := [];
      NoPlaces(all);
    } else {
      var before := MergePlaces(all, i - 1);
      AddsPlace(all, i - 1, before);
      at := if AppearsBefore(all, all[i - 1].key, i - 1) then before else before + [i - 1];
    }
  }

  lemma AddsFirst(all: seq<Field>, i: nat, at: seq<nat>)
    requires i < |all| && AreFirst(all, i, at)
    ensures AreFirst(all, i + 1, at)
    ensures !AppearsBefore(all, all[i].key, i) ==> AreFirst(all, i + 1, at + [i])
  {
    hide AppearsBefore;
  }

  lemma {:induction false} MapOfLast(all: seq<Field>, i: nat)
    requires i < |all| && forall j :: i < j < |all| ==> all[j].key != all[i].key
    ensures all[i].key in MapOf(all) && MapOf(all)[all[i].key] == all[i].value
    decreases |all|
  {
    if i < |all| - 1 {
      MapOfLast(all[..|all| - 1], i);
    }
  }

  lemma {:induction false} MapOfKeys(all: seq<Field>, key: string)
    ensures key in MapOf(all) <==> AppearsBefore(all, key, |all|)
  {
    if all != [] {
      var before := all[..|all| - 1];
      MapOfKeys(before, key);
      if AppearsBefore(before, key, |before|) {
        var j :| 0 <= j < |before| && before[j].key == key;
        assert all[j].key == key;
      }
    }
  }

  lemma {:induction false} MergedKeys(all: seq<Field>, i: nat, key: string)
    requires i <= |all|
    ensures AppearsBefore(MergedUpTo(all, i), key, |MergedUpTo(all, i)|) <==> AppearsBefore(all, key, i)
  {
    if i > 0 {
      MergedKeys(all, i - 1, key);
      var before, after := MergedUpTo(all, i - 1), MergedUpTo(all, i);
      if AppearsBefore(before, key, |before|) {
        var j :| 0 <= j < |before| && before[j].key == key;
        assert after[j].key == key;
      }
      if AppearsBefore(all, key, i - 1) {
        var j :| 0 <= j < i - 1 && all[j].key == key;
        assert AppearsBefore(all, key, i);
      }
      if all[i - 1].key == key && !AppearsBefore(all, key, i - 1) {
        assert after[|before|].key == key;
      }
    }
  }

  /** The fields visited hold the same values as all of them. */
  lemma {:induction false} MergedHasSameMap(all: seq<Field>)
    ensures MapOf(Merged(all)) == MapOf(all)
  {
    var merged := Merged(all);
    var at := MergedIsMerge(all);
    forall key
      ensures key in MapOf(merged) <==> key in MapOf(all)
      ensures key in MapOf(all) ==> MapOf(merged)[key] == MapOf(all)[key]
    {
      MapOfKeys(all, key);
      MapOfKeys(merged, key);
      MergedKeys(all, |all|, key);
      if key in MapOf(merged) {
        var k :| 0 <= k < |merged| && merged[k].key == key;
        MapOfLast(merged, k);
        MapOfLast(all, LastFrom(all, at[k]));
      }
    }
  }

  /** Fields without a repeated key are visited as they are. */
  lemma {:induction false} DistinctAreKept(fields: seq<Field>, i: nat)
    requires DistinctKeys(fields) && i <= |fields|
    ensures MergedUpTo(fields, i) == fields[..i]
  {
    if i > 0 {
      DistinctAreKept(fields, i - 1);
      assert LastFrom(fields, i - 1) == i - 1;
    }
  }

  /** Visiting a merged copy visits the same as visiting the original. */
  lemma MergedTwice(all: seq<Field>)
    ensures Merged(Merged(all)) == Merged(all)
  {
    var at := MergedIsMerge(all);
    DistinctAreKept(Merged(all), |Merged(all)|);
  }

  // ---- What a scope's fields and an entry's mean --------------------------------------------

  /** The field is the last of its key among the entry's own fields, or the innermost scope with that key decides it. */
  predicate Decides(scope: Scope, fields: seq<Field>, field: Field)
    decreases scope
  {
    IsLast(fields, field) ||
    (scope.Scope? && !AppearsBefore(fields, field.key, |fields|) && Decides(scope.parent, scope.fields, field))
  }

  predicate IsLast(fields: seq<Field>, field: Field) {
    exists i :: 0 <= i < |fields| && fields[i] == field && forall j :: i < j < |fields| ==> fields[j].key != field.key
  }

  /** The keys in the order in which they first appear, from the outermost scope inwards. */
  function KeysOf(scope: Scope, fields: seq<Field>): seq<string>
    decreases scope
  {
    WithNewKeys(if scope.Scope? then KeysOf(scope.parent, scope.fields) else [], fields)
  }

  function WithNewKeys(keys: seq<string>, fields: seq<Field>): seq<string>
    decreases |fields|
  {
    if fields == [] then keys
    else WithNewKeys(if fields[0].key in keys then keys else keys + [fields[0].key], fields[1..])
  }

  function Keys(fields: seq<Field>): (keys: seq<string>)
    ensures |keys| == |fields| && forall i :: 0 <= i < |fields| ==> keys[i] == fields[i].key
  {
    if fields == [] then [] else Keys(fields[..|fields| - 1]) + [fields[|fields| - 1].key]
  }

  /** Fields visited once for each key, with the values of the innermost scopes, in the order of the outermost. */
  ghost predicate AreVisited(scope: Scope, fields: seq<Field>, visited: seq<Field>) {
    && Keys(visited) == KeysOf(scope, fields) && DistinctKeys(visited)
    && forall field :: field in visited <==> Decides(scope, fields, field)
  }

  lemma {:induction false} LastOfAll(scope: Scope, fields: seq<Field>, field: Field)
    ensures IsLast(All(scope, fields), field) <==> Decides(scope, fields, field)
    decreases scope
  {
    hide IsLast, AppearsBefore;
    if scope.Scope? {
      LastOfAll(scope.parent, scope.fields, field);
      LastJoins(All(scope.parent, scope.fields), fields, field);
    } else {
      assert All(scope, fields) == fields;
    }
  }

  lemma LastJoins(outer: seq<Field>, fields: seq<Field>, field: Field)
    ensures IsLast(outer + fields, field)
       <==> IsLast(fields, field) || (!AppearsBefore(fields, field.key, |fields|) && IsLast(outer, field))
  {
    var all := outer + fields;
    assert forall j :: 0 <= j < |fields| ==> fields[j] == all[|outer| + j];
    assert forall j :: 0 <= j < |outer| ==> outer[j] == all[j];
    if IsLast(all, field) {
      var i :| 0 <= i < |all| && all[i] == field && forall j :: i < j < |all| ==> all[j].key != field.key;
      if i < |outer| {
        assert outer[i] == field && IsLast(outer, field);
      } else {
        assert fields[i - |outer|] == field && IsLast(fields, field);
      }
    }
    if IsLast(fields, field) {
      var i :| 0 <= i < |fields| && fields[i] == field && forall j :: i < j < |fields| ==> fields[j].key != field.key;
      assert all[|outer| + i] == field;
      assert forall j :: |outer| + i < j < |all| ==> all[j] == fields[j - |outer|];
    }
    if !AppearsBefore(fields, field.key, |fields|) && IsLast(outer, field) {
      var i :| 0 <= i < |outer| && outer[i] == field && forall j :: i < j < |outer| ==> outer[j].key != field.key;
      assert all[i] == field;
      assert forall j :: |outer| <= j < |all| ==> all[j] == fields[j - |outer|];
    }
  }

  lemma MergedAreLast(all: seq<Field>, field: Field)
    ensures field in Merged(all) <==> IsLast(all, field)
  {
    var at := MergedIsMerge(all);
    var merged := Merged(all);
    if field in merged {
      var k :| 0 <= k < |merged| && merged[k] == field;
      assert all[LastFrom(all, at[k])] == field;
    }
    if IsLast(all, field) {
      var i :| 0 <= i < |all| && all[i] == field && forall j :: i < j < |all| ==> all[j].key != field.key;
      assert AppearsBefore(merged, all[i].key, |merged|);
      var k :| 0 <= k < |merged| && merged[k].key == field.key;
      var last := LastFrom(all, at[k]);
      assert merged[k] == all[last];
      assert last == i;
    }
  }

  lemma {:induction false} NewKeysJoin(keys: seq<string>, a: seq<Field>, b: seq<Field>)
    ensures WithNewKeys(keys, a + b) == WithNewKeys(WithNewKeys(keys, a), b)
    decreases |a|
  {
    if a == [] {
      assert a + b == b;
    } else {
      assert (a + b)[1..] == a[1..] + b;
      NewKeysJoin(if a[0].key in keys then keys else keys + [a[0].key], a[1..], b);
    }
  }

  lemma {:induction false} KeysOfAll(scope: Scope, fields: seq<Field>)
    ensures KeysOf(scope, fields) == WithNewKeys([], All(scope, fields))
    decreases scope
  {
    if scope.Scope? {
      KeysOfAll(scope.parent, scope.fields);
      NewKeysJoin([], All(scope.parent, scope.fields), fields);
    }
  }

  lemma KeysAppended(fields: seq<Field>, field: Field)
    ensures Keys(fields + [field]) == Keys(fields) + [field.key]
  {
    assert (fields + [field])[..|fields|] == fields;
  }

  lemma {:induction false} MergedInOrder(all: seq<Field>, i: nat)
    requires i <= |all|
    ensures Keys(MergedUpTo(all, i)) == WithNewKeys([], all[..i])
  {
    hide AppearsBefore, LastFrom, Keys, WithNewKeys;
    if i == 0 {
      assert all[..0] == [];
      NoKeys();
    } else {
      MergedInOrder(all, i - 1);
      assert all[..i] == all[..i - 1] + [all[i - 1]];
      var keys := WithNewKeys([], all[..i - 1]);
      NewKeysJoin([], all[..i - 1], [all[i - 1]]);
      OneKey(keys, all[i - 1]);
      MergedKeys(all, i - 1, all[i - 1].key);
      KeyAppears(MergedUpTo(all, i - 1), all[i - 1].key);
      KeysAppended(MergedUpTo(all, i - 1), all[LastFrom(all, i - 1)]);
    }
  }

  lemma NoKeys()
    ensures Keys([]) == WithNewKeys([], [])
  {
  }

  lemma OneKey(keys: seq<string>, field: Field)
    ensures WithNewKeys(keys, [field]) == if field.key in keys then keys else keys + [field.key]
  {
    assert [field][1..] == [];
  }

  lemma KeyAppears(fields: seq<Field>, key: string)
    ensures AppearsBefore(fields, key, |fields|) <==> key in Keys(fields)
  {
  }

  /** An entry's own fields come before those of its scopes, and an inner scope's before an outer one's; the keys stand
      where they first appear, from the outermost scope inwards. */
  lemma InnermostDecides(scope: Scope, fields: seq<Field>)
    ensures AreVisited(scope, fields, Merged(All(scope, fields)))
  {
    hide IsLast, Decides, KeysOf, WithNewKeys, All, Keys, Merged;
    var all := All(scope, fields);
    forall field ensures field in Merged(all) <==> Decides(scope, fields, field) {
      MergedAreLast(all, field);
      LastOfAll(scope, fields, field);
    }
    KeysOfAll(scope, fields);
    MergedKeysInOrder(all);
    var at := MergedIsMerge(all);
  }

  lemma MergedKeysInOrder(all: seq<Field>)
    ensures Keys(Merged(all)) == WithNewKeys([], all)
  {
    MergedInOrder(all, |all|);
    assert all[..|all|] == all;
  }

  // ---- The loops -----------------------------------------------------------------------

  /** Visits all fields, the parents' first: the last one of a key is the one that counts, and the keys first appear from
      the outermost scope inwards. */
  method VisitAllLogFields(scope: Scope, fields: seq<Field>) returns (all: seq<Field>)
    ensures all == All(scope, fields)
    ensures forall field :: IsLast(all, field) <==> Decides(scope, fields, field)
    ensures WithNewKeys([], all) == KeysOf(scope, fields)
    decreases scope
  {
    hide IsLast, Decides, WithNewKeys, KeysOf;
    KeysOfAll(scope, fields);
    forall field { LastOfAll(scope, fields, field); }
    all := [];
    if scope.Scope? {
      all := VisitAllLogFields(scope.parent, scope.fields);
    }
    for i := 0 to |fields|
      invariant all == (if scope.Scope? then All(scope.parent, scope.fields) else []) + fields[..i]
    {
      all := all + [fields[i]];
    }
  }

  /** The winner among the candidates for the field at 'position', unless an earlier field had its key. */
  method FindWinner(all: seq<Field>, position: nat) returns (isRepeated: bool, winner: nat)
    requires position < |all|
    ensures isRepeated == AppearsBefore(all, all[position].key, position)
    ensures !isRepeated ==> winner == LastFrom(all, position)
  {
    isRepeated, winner := false, position;
    var index := 0;
    while index < |all|
      invariant index <= |all| && position <= winner < |all| && !isRepeated
      invariant winner == position || winner < index
      invariant !AppearsBefore(all, all[position].key, if index < position then index else position)
      invariant all[winner].key == all[position].key
      invariant forall j :: winner < j < index ==> all[j].key != all[position].key
    {
      if all[index].key == all[position].key {
        if index < position {
          return true, winner;
        }
        winner := index;
      }
      index := index + 1;
    }
  }

  /** Calls the visitor once for each key: the usual path without a scope, and the path over all scopes. */
  method ForEachLogField(scope: Scope, fields: seq<Field>) returns (visited: seq<Field>)
    ensures AreVisited(scope, fields, visited)
    ensures visited == Merged(All(scope, fields))
  {
    InnermostDecides(scope, fields);
    hide AreVisited;
    visited := [];
    if scope.NoScope? {
      for index := 0 to |fields|
        invariant visited == MergedUpTo(fields, index)
      {
        var isRepeated, earlier := false, 0;
        while earlier < index && !isRepeated
          invariant earlier <= index
          invariant isRepeated <==> AppearsBefore(fields, fields[index].key, earlier)
        {
          isRepeated := fields[earlier].key == fields[index].key;
          earlier := earlier + 1;
        }
        if !isRepeated {
          var winner := index;
          for later := index + 1 to |fields|
            invariant index <= winner < later && fields[winner].key == fields[index].key
            invariant forall j :: winner < j < later ==> fields[j].key != fields[index].key
          {
            if fields[later].key == fields[index].key {
              winner := later;
            }
          }
          assert winner == LastFrom(fields, index);
          visited := visited + [fields[winner]];
        } else {
          SeenBefore(fields, fields[index].key, earlier, index);
        }
      }
      return;
    }
    var all := VisitAllLogFields(scope, fields);
    for position := 0 to |all|
      invariant visited == MergedUpTo(all, position)
    {
      var isRepeated, winner := FindWinner(all, position);
      if !isRepeated {
        visited := visited + [all[winner]];
      }
    }
  }

  lemma SeenBefore(all: seq<Field>, key: string, i: nat, j: nat)
    requires i <= j <= |all| && AppearsBefore(all, key, i)
    ensures AppearsBefore(all, key, j)
  {
  }
}
