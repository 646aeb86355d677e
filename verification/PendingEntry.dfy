/** Copies of fields in one character buffer, and an entry whose fields a hook finds, sets and removes. */
module PendingEntry {
  import opened Fields
  import opened Sequences

  /** A text in a buffer. */
  datatype View = View(start: nat, size: nat)
  datatype OwnedValue = OwnedScalar(n: int) | OwnedText(view: View)
  datatype OwnedField = OwnedField(key: View, value: OwnedValue)

  predicate InBuffer(view: View, text: string) {
    view.start + view.size <= |text|
  }

  predicate FieldInBuffer(f: OwnedField, text: string) {
    InBuffer(f.key, text) && (f.value.OwnedText? ==> InBuffer(f.value.view, text))
  }

  function Read(view: View, text: string): string
    requires InBuffer(view, text)
  {
    text[view.start..view.start + view.size]
  }

  function ReadField(f: OwnedField, text: string): Field
    requires FieldInBuffer(f, text)
  {
    Field(Read(f.key, text), match f.value case OwnedScalar(n) => Scalar(n) case OwnedText(view) => Text(Read(view, text)))
  }

  function TextSize(f: Field): nat {
    |f.key| + if f.value.Text? then |f.value.text| else 0
  }

  function TotalSize(fields: seq<Field>): nat {
    if fields == [] then 0 else TotalSize(fields[..|fields| - 1]) + TextSize(fields[|fields| - 1])
  }

  method MeasureTexts(source: seq<Field>) returns (textSize: nat)
    ensures textSize == TotalSize(source)
  {
    textSize := 0;
    for i := 0 to |source|
      invariant textSize == TotalSize(source[..i])
    {
      assert source[..i + 1][..i] == source[..i];
      textSize := textSize + |source[i].key|;
      if source[i].value.Text? {
        textSize := textSize + |source[i].value.text|;
      }
    }
    assert source[..|source|] == source;
  }

  /** 'copies' are the fields, in the buffer. */
  ghost predicate AreCopies(copies: seq<OwnedField>, buffer: string, source: seq<Field>) {
    |copies| == |source| &&
    forall j :: 0 <= j < |copies| ==> FieldInBuffer(copies[j], buffer) && ReadField(copies[j], buffer) == source[j]
  }

  /** Copies the texts one after the other; the buffer never grows past the size reserved for it. */
  method CopyFields(source: seq<Field>, reserved: nat) returns (buffer: string, copies: seq<OwnedField>)
    requires reserved == TotalSize(source)
    ensures AreCopies(copies, buffer, source) && |buffer| == reserved
  {
    hide AreCopies;
    buffer, copies := "", [];
    NoCopies();
    for i := 0 to |source|
      invariant AreCopies(copies, buffer, source[..i]) && |buffer| == TotalSize(source[..i]) <= reserved
    {
      assert source[..i + 1][..i] == source[..i] && source[..i + 1] == source[..i] + [source[i]];
      SizesGrow(source, i + 1);
      var after, copy := CopyField(buffer, source[i]);
      AddsCopy(copies, buffer, source[..i], after, copy, source[i]);
      buffer, copies := after, copies + [copy];
    }
    assert source[..|source|] == source;
  }

  lemma NoCopies()
    ensures AreCopies([], "", [])
  {
  }

  method CopyField(buffer: string, f: Field) returns (after: string, copy: OwnedField)
    ensures |after| == |buffer| + TextSize(f) && after[..|buffer|] == buffer
    ensures FieldInBuffer(copy, after) && ReadField(copy, after) == f
  {
    var key;
    after, key := CopyText(buffer, f.key);
    copy := OwnedField(key, OwnedScalar(0));
    match f.value
    case Text(text) =>
      var value;
      ghost var before := after;
      after, value := CopyText(after, text);
      ViewsStay(copy, before, after);
      copy := copy.(value := OwnedText(value));
    case Scalar(n) => copy := copy.(value := OwnedScalar(n));
  }

  lemma AddsCopy(copies: seq<OwnedField>, before: string, source: seq<Field>, after: string, copy: OwnedField, f: Field)
    requires AreCopies(copies, before, source) && |before| <= |after| && after[..|before|] == before
    requires FieldInBuffer(copy, after) && ReadField(copy, after) == f
    ensures AreCopies(copies + [copy], after, source + [f])
  {
    forall j | 0 <= j < |copies|
      ensures FieldInBuffer(copies[j], after) && ReadField(copies[j], after) == source[j]
    {
      ViewsStay(copies[j], before, after);
    }
  }

  class TOwnedFields {
    var text: string
    var fields: seq<OwnedField>

    ghost predicate Valid()
      reads this
    {
      forall i :: 0 <= i < |fields| ==> FieldInBuffer(fields[i], text)
    }

    /** The fields as a visitor sees them. */
    ghost function Get(): (all: seq<Field>)
      requires Valid()
      reads this
    {
      seq(|fields|, i requires 0 <= i < |fields| reads this requires Valid() => ReadField(fields[i], text))
    }

    constructor ()
      ensures Valid() && Get() == []
    {
      text, fields := "", [];
    }

    /** Copies the fields and their texts. The buffer holds exactly the texts it was reserved for, so it never moves while
        views into it are made. */
    method Assign(source: seq<Field>)
      requires Valid()
      modifies this
      ensures Valid() && Get() == source && |text| == TotalSize(source)
    {
      var textSize := MeasureTexts(source);
      var buffer, copies := CopyFields(source, textSize);
      text, fields := buffer, copies;
    }

    method AssignMerged(scope: Scope, own: seq<Field>)
      requires Valid()
      modifies this
      ensures Valid() && Get() == Merged(All(scope, own))
    {
      if scope.NoScope? && own == [] {
        text, fields := "", [];
        return;
      }
      var merged := ForEachLogField(scope, own);
      Assign(merged);
    }
  }

  method CopyText(text: string, source: string) returns (after: string, view: View)
    ensures after == text + source && view == View(|text|, |source|) && Read(view, after) == source
  {
    after, view := text + source, View(|text|, |source|);
  }

  lemma ViewsStay(f: OwnedField, before: string, after: string)
    requires FieldInBuffer(f, before) && |before| <= |after| && after[..|before|] == before
    ensures FieldInBuffer(f, after) && ReadField(f, after) == ReadField(f, before)
  {
    ViewStays(f.key, before, after);
    if f.value.OwnedText? {
      ViewStays(f.value.view, before, after);
    }
  }

  lemma ViewStays(view: View, before: string, after: string)
    requires InBuffer(view, before) && |before| <= |after| && after[..|before|] == before
    ensures InBuffer(view, after) && Read(view, after) == Read(view, before)
  {
    assert forall i :: 0 <= i < |before| ==> after[i] == after[..|before|][i] == before[i];
  }

  lemma {:induction false} SizesGrow(fields: seq<Field>, i: nat)
    requires i <= |fields|
    ensures TotalSize(fields[..i]) <= TotalSize(fields)
    decreases |fields| - i
  {
    if i == |fields| {
      assert fields[..i] == fields;
    } else {
      assert fields[..i + 1][..i] == fields[..i];
      SizesGrow(fields, i + 1);
    }
  }

  /** A copy made of an entry's visited fields is visited as the entry was. */
  lemma CopyIsVisitedTheSame(scope: Scope, own: seq<Field>)
    ensures Merged(All(NoScope, Merged(All(scope, own)))) == Merged(All(scope, own))
  {
    MergedTwice(All(scope, own));
  }

  // ---- Setting and removing -----------------------------------------------------------

  /** 'key' with the new value in its place, or at the end if it is new. */
  function Updated(fields: seq<Field>, key: string, value: Value): seq<Field> {
    if fields == [] then [Field(key, value)]
    else if fields[0].key == key then [Field(key, value)] + fields[1..]
    else [fields[0]] + Updated(fields[1..], key, value)
  }

  function Without(fields: seq<Field>, key: string): seq<Field> {
    if fields == [] then []
    else if fields[0].key == key then Without(fields[1..], key)
    else [fields[0]] + Without(fields[1..], key)
  }

  /** Distinct fields are the map they stand for: each pair is a field of its own. */
  lemma {:induction false} DistinctMap(fields: seq<Field>, key: string)
    requires DistinctKeys(fields)
    ensures key in MapOf(fields) <==> exists i :: 0 <= i < |fields| && fields[i].key == key
    ensures forall i :: 0 <= i < |fields| && fields[i].key == key ==> MapOf(fields)[key] == fields[i].value
  {
    MapOfKeys(fields, key);
    forall i | 0 <= i < |fields| && fields[i].key == key
      ensures key in MapOf(fields) && MapOf(fields)[key] == fields[i].value
    {
      MapOfLast(fields, i);
    }
  }

  lemma {:induction false} UpdatedFields(fields: seq<Field>, key: string, value: Value)
    requires DistinctKeys(fields)
    ensures var after := Updated(fields, key, value);
      && DistinctKeys(after)
      && (forall f :: f in after <==> f == Field(key, value) || (f in fields && f.key != key))
    decreases |fields|
  {
    if fields != [] && fields[0].key != key {
      UpdatedFields(fields[1..], key, value);
    }
  }

  lemma {:induction false} WithoutFields(fields: seq<Field>, key: string)
    requires DistinctKeys(fields)
    ensures DistinctKeys(Without(fields, key))
    ensures forall f :: f in Without(fields, key) <==> f in fields && f.key != key
    decreases |fields|
  {
    if fields != [] {
      WithoutFields(fields[1..], key);
    }
  }

  lemma MapHas(fields: seq<Field>, key: string, value: Value)
    requires DistinctKeys(fields)
    ensures Field(key, value) in fields <==> key in MapOf(fields) && MapOf(fields)[key] == value
  {
    DistinctMap(fields, key);
  }

  /** Setting a field is a map update that leaves the other fields where they are. */
  lemma SettingUpdates(fields: seq<Field>, key: string, value: Value)
    requires DistinctKeys(fields)
    ensures MapOf(Updated(fields, key, value)) == MapOf(fields)[key := value]
    ensures Keys(Updated(fields, key, value)) == if key in Keys(fields) then Keys(fields) else Keys(fields) + [key]
  {
    UpdatedKeys(fields, key, value);
    var after := Updated(fields, key, value);
    UpdatedFields(fields, key, value);
    forall k
      ensures k in MapOf(after) <==> k in MapOf(fields)[key := value]
      ensures k in MapOf(after) ==> MapOf(after)[k] == MapOf(fields)[key := value][k]
    {
      SameAt(after, fields, k, key, value);
    }
  }

  lemma SameAt(after: seq<Field>, fields: seq<Field>, k: string, key: string, value: Value)
    requires DistinctKeys(fields) && DistinctKeys(after)
    requires forall f :: f in after <==> f == Field(key, value) || (f in fields && f.key != key)
    ensures k in MapOf(after) <==> k in MapOf(fields)[key := value]
    ensures k in MapOf(after) ==> MapOf(after)[k] == MapOf(fields)[key := value][k]
  {
    if k in MapOf(after) {
      MapHas(after, k, MapOf(after)[k]);
      MapHas(fields, k, MapOf(after)[k]);
    }
    if k in MapOf(fields) {
      MapHas(fields, k, MapOf(fields)[k]);
      MapHas(after, k, MapOf(fields)[k]);
    }
    MapHas(after, key, value);
  }

  lemma KeysFirst(fields: seq<Field>)
    requires fields != []
    ensures Keys(fields) == [fields[0].key] + Keys(fields[1..])
  {
    hide Keys;
  }

  lemma {:induction false} UpdatedKeys(fields: seq<Field>, key: string, value: Value)
    ensures Keys(Updated(fields, key, value)) == if key in Keys(fields) then Keys(fields) else Keys(fields) + [key]
    decreases |fields|
  {
    if fields != [] {
      KeysFirst(fields);
      KeysFirst(Updated(fields, key, value));
      if fields[0].key != key {
        UpdatedKeys(fields[1..], key, value);
      }
    }
  }

  /** The keys without 'key', in their order. */
  function Except(keys: seq<string>, key: string): seq<string> {
    if keys == [] then [] else (if keys[0] == key then [] else [keys[0]]) + Except(keys[1..], key)
  }

  lemma {:induction false} WithoutKeys(fields: seq<Field>, key: string)
    ensures Keys(Without(fields, key)) == Except(Keys(fields), key)
    decreases |fields|
  {
    if fields != [] {
      KeysFirst(fields);
      WithoutKeys(fields[1..], key);
    }
  }

  /** Removing a field removes its key from the map, and leaves the others in their order. */
  lemma RemovingRemoves(fields: seq<Field>, key: string)
    requires DistinctKeys(fields)
    ensures MapOf(Without(fields, key)) == MapOf(fields) - {key}
    ensures Keys(Without(fields, key)) == Except(Keys(fields), key)
  {
    WithoutKeys(fields, key);
    var after := Without(fields, key);
    WithoutFields(fields, key);
    forall k
      ensures k in MapOf(after) <==> k in MapOf(fields) - {key}
      ensures k in MapOf(after) ==> MapOf(after)[k] == (MapOf(fields) - {key})[k]
    {
      if k in MapOf(after) {
        MapHas(after, k, MapOf(after)[k]);
        MapHas(fields, k, MapOf(after)[k]);
      }
      if k in MapOf(fields) {
        MapHas(fields, k, MapOf(fields)[k]);
        MapHas(after, k, MapOf(fields)[k]);
      }
    }
  }

  datatype Found = Missing | Found(value: Value)

  class TASWPendingEntry {
    var scope: Scope
    var own: seq<Field>

    /** The fields a visitor of the entry gets. */
    ghost function Visited(): seq<Field>
      reads this
    {
      Merged(All(scope, own))
    }

    constructor (scope: Scope, own: seq<Field>)
      ensures Visited() == Merged(All(scope, own))
    {
      this.scope, this.own := scope, own;
    }

    method FindField(key: string) returns (found: Found)
      ensures found == if key in MapOf(Visited()) then Found(MapOf(Visited())[key]) else Missing
    {
      hide AreVisited, Merged, All;
      var visited := ForEachLogField(scope, own);
      var at := MergedIsMerge(All(scope, own));
      hide IsMerge;
      found := Missing;
      for i := 0 to |visited|
        invariant found.Missing? ==> forall j :: 0 <= j < i ==> visited[j].key != key
        invariant found.Found? ==> exists j :: 0 <= j < i && visited[j] == Field(key, found.value)
      {
        if visited[i].key == key {
          found := Found(visited[i].value);
        }
      }
      DistinctMap(visited, key);
    }

    /** Makes 'fields' the entry's only fields, in place of its own and its scopes'. */
    method ReplaceFields(fields: seq<Field>)
      requires DistinctKeys(fields)
      modifies this
      ensures Visited() == fields
    {
      DistinctAreKept(fields, |fields|);
      scope, own := NoScope, fields;
    }

    method SetField(key: string, value: Value)
      modifies this
      ensures Visited() == Updated(old(Visited()), key, value)
      ensures MapOf(Visited()) == MapOf(old(Visited()))[key := value]
      ensures var keys := Keys(old(Visited())); Keys(Visited()) == if key in keys then keys else keys + [key]
    {
      hide Merged, MapOf, All, AreVisited;
      var visited := ForEachLogField(scope, own);
      var at := MergedIsMerge(All(scope, own));
      UpdatedFields(visited, key, value);
      SettingUpdates(visited, key, value);
      var fields := WithField(visited, key, value);
      ReplaceFields(fields);
    }

    method RemoveField(key: string)
      modifies this
      ensures Visited() == Without(old(Visited()), key)
      ensures MapOf(Visited()) == MapOf(old(Visited())) - {key}
      ensures Keys(Visited()) == Except(Keys(old(Visited())), key)
    {
      hide Merged, MapOf, All, AreVisited;
      var at := MergedIsMerge(All(scope, own));
      RemovingRemoves(Visited(), key);
      var found := FindField(key);
      if found.Missing? {
        NothingToRemove(Visited(), key);
        return;
      }
      var visited := ForEachLogField(scope, own);
      WithoutFields(visited, key);
      var fields := WithoutField(visited, key);
      ReplaceFields(fields);
    }
  }

  /** Visits the fields, putting the new value where the key is, or else at the end. */
  method WithField(visited: seq<Field>, key: string, value: Value) returns (fields: seq<Field>)
    requires DistinctKeys(visited)
    ensures fields == Updated(visited, key, value)
  {
    fields := [];
    var isReplaced := false;
    assert visited[0..] == visited;
    for i := 0 to |visited|
      invariant !isReplaced ==> fields + Updated(visited[i..], key, value) == Updated(visited, key, value)
      invariant isReplaced ==> fields + visited[i..] == Updated(visited, key, value)
      invariant isReplaced ==> forall j :: i <= j < |visited| ==> visited[j].key != key
    {
      var rest := visited[i..];
      assert rest == [visited[i]] + visited[i + 1..];
      if visited[i].key == key {
        Associates(fields, [Field(key, value)], visited[i + 1..]);
        fields, isReplaced := fields + [Field(visited[i].key, value)], true;
      } else {
        Associates(fields, [visited[i]], if isReplaced then visited[i + 1..] else Updated(visited[i + 1..], key, value));
        fields := fields + [visited[i]];
      }
    }
    assert visited[|visited|..] == [];
    if !isReplaced {
      fields := fields + [Field(key, value)];
    }
  }

  /** Visits the fields, leaving out the one with the key. */
  method WithoutField(visited: seq<Field>, key: string) returns (fields: seq<Field>)
    ensures fields == Without(visited, key)
  {
    fields := [];
    assert visited[0..] == visited;
    for i := 0 to |visited|
      invariant fields + Without(visited[i..], key) == Without(visited, key)
    {
      assert visited[i..] == [visited[i]] + visited[i + 1..];
      if visited[i].key != key {
        Associates(fields, [visited[i]], Without(visited[i + 1..], key));
        fields := fields + [visited[i]];
      }
    }
    assert visited[|visited|..] == [];
  }

  lemma NothingToRemove(fields: seq<Field>, key: string)
    requires key !in MapOf(fields)
    ensures Without(fields, key) == fields
  {
    MapOfKeys(fields, key);
    KeptWithout(fields, key);
  }

  lemma {:induction false} KeptWithout(fields: seq<Field>, key: string)
    requires forall i :: 0 <= i < |fields| ==> fields[i].key != key
    ensures Without(fields, key) == fields
    decreases |fields|
  {
    if fields != [] {
      KeptWithout(fields[1..], key);
    }
  }
}
