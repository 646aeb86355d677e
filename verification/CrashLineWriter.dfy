/** The functions that build the crash lines in the buffer: what they append is the lines of CrashLine. */
module CrashLineWriter {
  import opened Unicode
  import opened Transcoding
  import opened Words
  import opened Json
  import opened JsonPieces
  import opened JsonReader
  import opened Sequences
  import opened CrashText
  import opened CrashLine
  import M = Multiline

  const EQUALS: byte := 0x3D

  // ---- Fields ------------------------------------------------------------------------

  function FieldHead(hasField: bool, f: Field): (head: seq<byte>)
    ensures head != []
  {
    (if hasField then [M.SPACE] else []) + (f.key + [EQUALS])
  }

  function FieldText(hasField: bool, f: Field, room: nat): (text: seq<byte>)
    requires room > 0
    ensures text != []
  {
    var head := FieldHead(hasField, f);
    head + if f.value.TextValue? then RenderQuoted(Quoted(f.value.text, Minus(room - 1, |head| + 1))) else f.value.plain
  }

  /** A field as it is built aside, with the comma or space before it. */
  function BuiltField(hasField: bool, f: Field, isJSON: bool, room: nat): seq<byte>
    requires room > 0
  {
    if isJSON then (if hasField then [COMMA] else []) + RenderMember(FieldMember(hasField, f, room))
    else FieldText(hasField, f, room)
  }

  lemma QuotedFits(c: seq<byte>, t: seq<byte>, reserved: nat)
    requires |c| + 2 <= CAPACITY
    ensures QuotedAppended(c, t, reserved)
         == c + RenderQuoted(Quoted(t, Minus(Minus(CAPACITY, reserved + 1), |c| + 1)))
    ensures |QuotedAppended(c, t, reserved)| <= Max(CAPACITY - reserved, |c| + 2)
  {
    hide EscapedWithin;
    var begun := c + [QUOTE];
    AppendedWhole(c, [QUOTE]);
    var within := EscapedWithin(t, Minus(Minus(CAPACITY, reserved + 1), |begun|));
    AppendedWhole(begun + within, [QUOTE]);
    assert begun + within + [QUOTE] == c + ([QUOTE] + within + [QUOTE]);
  }

  function Max(a: int, b: int): int {
    if a >= b then a else b
  }

  /** A field built aside fits if and only if it was not cut, and then it is the field. */
  method BuildField(hasField: bool, f: Field, isJSON: bool, room: nat) returns (text: TCrashText)
    requires 0 < room <= CAPACITY - FIELDS_RESERVED && ScalarOk(f.value)
    ensures text.Valid() && fresh(text) && fresh(text.text)
    ensures |text.Contents()| <= room <==> |BuiltField(hasField, f, isJSON, room)| <= room
    ensures |text.Contents()| <= room ==> text.Contents() == BuiltField(hasField, f, isJSON, room)
  {
    hide EscapedWithin, RenderQuoted, Appended, QuotedAppended;
    text := new TCrashText();
    if isJSON {
      BuildJSONField(text, hasField, f, room);
    } else {
      BuildTextField(text, hasField, f, room);
    }
  }

  method BuildJSONField(text: TCrashText, hasField: bool, f: Field, room: nat)
    requires 0 < room <= CAPACITY - FIELDS_RESERVED && ScalarOk(f.value) && text.Valid() && text.Contents() == []
    modifies text, text.text
    ensures text.Valid() && text.Contents() == BuiltField(hasField, f, true, room)
  {
    hide EscapedWithin, RenderQuoted, Appended, QuotedAppended, BuiltField, RenderMember;
    BuiltInParts(hasField, f, room);
    var comma: seq<byte> := if hasField then [COMMA] else [];
    var m := FieldMember(hasField, f, room);
    AppendedWhole([], comma);
    text.Append(comma);
    assert [] + comma == comma;
    QuotedFits(comma, f.key, CAPACITY - room);
    text.AppendJSONString(f.key, CAPACITY - room);
    var c := comma + RenderQuoted(m.key);
    AppendedWhole(c, [COLON]);
    text.Append([COLON]);
    c := c + [COLON];
    if f.value.TextValue? {
      QuotedFits(c, f.value.text, CAPACITY - room);
      text.AppendJSONString(f.value.text, CAPACITY - room);
    } else {
      AppendedWhole(c, Render(f.value.json));
      text.Append(Render(f.value.json));
    }
  }

  lemma BuiltInParts(hasField: bool, f: Field, room: nat)
    requires room > 0
    ensures var m := FieldMember(hasField, f, room);
      BuiltField(hasField, f, true, room)
      == ((if hasField then [COMMA] else []) + RenderQuoted(m.key) + [COLON]) + Render(m.value)
  {
    hide RenderQuoted, FieldMember, Render;
  }

  method BuildTextField(text: TCrashText, hasField: bool, f: Field, room: nat)
    requires 0 < room <= CAPACITY - FIELDS_RESERVED && ScalarOk(f.value) && text.Valid() && text.Contents() == []
    modifies text, text.text
    ensures text.Valid()
    ensures var t := text.Contents();
      (|t| <= room <==> |FieldText(hasField, f, room)| <= room) && (|t| <= room ==> t == FieldText(hasField, f, room))
  {
    hide EscapedWithin, RenderQuoted, QuotedAppended, Appended;
    BuildTextHead(text, hasField, f);
    hide FieldHead;
    var head := FieldHead(hasField, f);
    AppendedWhole([], head);
    assert [] + head == head;
    if f.value.TextValue? {
      if |head| + 2 <= CAPACITY {
        QuotedFits(head, f.value.text, CAPACITY - room);
      }
      text.AppendJSONString(f.value.text, CAPACITY - room);
    } else {
      if |head| + 32 <= CAPACITY {
        AppendedWhole(head, f.value.plain);
      }
      text.Append(f.value.plain);
    }
  }

  method BuildTextHead(text: TCrashText, hasField: bool, f: Field)
    requires text.Valid() && text.Contents() == []
    modifies text, text.text
    ensures text.Valid() && text.Contents() == Appended([], FieldHead(hasField, f))
  {
    var space: seq<byte> := if hasField then [M.SPACE] else [];
    text.Append(space);
    text.Append(f.key);
    AppendedTwice(Appended([], space), f.key, [EQUALS]);
    AppendedTwice([], space, f.key + [EQUALS]);
    text.Append([EQUALS]);
  }

  lemma BuiltIsNext(members: seq<Member>, f: Field, room: nat)
    requires room > 0
    ensures var m, built := FieldMember(members != [], f, room), BuiltField(members != [], f, true, room);
      && built != [] && FieldSize(members != [], m) == |built|
      && RenderMembers(members + [m]) == RenderMembers(members) + built
  {
    hide FieldMember, RenderMembers;
    var m := FieldMember(members != [], f, room);
    RenderSnoc(members, m);
    if members == [] {
      OneMember(m);
      assert RenderMembers([]) == [] by { NoMembers(); }
    } else {
      Associates(RenderMembers(members), [COMMA], RenderMember(m));
    }
  }

  lemma NoMembers()
    ensures RenderMembers([]) == []
  {
  }

  /** What a field appends to a line of 'size' bytes: all of it, where that leaves the reserve free, or nothing. */
  function FieldPart(size: nat, hasField: bool, f: Field, isJSON: bool): seq<byte> {
    if size + FIELDS_RESERVED >= CAPACITY then []
    else
      var room := CAPACITY - (size + FIELDS_RESERVED);
      var built := BuiltField(hasField, f, isJSON, room);
      if |built| <= room then built else []
  }

  /** What all fields append, from 'written' on. */
  function FieldsPart(base: nat, written: seq<byte>, fields: seq<Field>, isJSON: bool): seq<byte>
    decreases |fields|
  {
    if fields == [] then written
    else FieldsPart(base, written + FieldPart(base + |written|, written != [], fields[0], isJSON), fields[1..], isJSON)
  }

  /** In a JSON line, that is the members kept. */
  lemma {:induction false} FieldsAreMembers(base: nat, kept: seq<Member>, fields: seq<Field>)
    ensures FieldsPart(base, RenderMembers(kept), fields, true) == RenderMembers(KeptFields(base, kept, fields))
    ensures RenderMembers(KeptFields(base, kept, fields)) != [] <==> KeptFields(base, kept, fields) != []
    decreases |fields|
  {
    hide FieldMember, BuiltField, RenderMembers, RenderMember;
    NoMembers();
    if kept != [] {
      MembersStart(kept);
    }
    if fields != [] {
      var used := base + |RenderMembers(kept)| + FIELDS_RESERVED;
      var next := kept;
      if used < CAPACITY {
        var m := FieldMember(kept != [], fields[0], CAPACITY - used);
        BuiltIsNext(kept, fields[0], CAPACITY - used);
        next := if FieldSize(kept != [], m) <= CAPACITY - used then kept + [m] else kept;
      }
      assert RenderMembers(next) == RenderMembers(kept) + FieldPart(base + |RenderMembers(kept)|, kept != [], fields[0], true);
      FieldsAreMembers(base, next, fields[1..]);
    }
  }

  method AppendField(line: TCrashText, hasField: bool, f: Field, isJSON: bool) returns (isAppended: bool)
    requires line.Valid() && ScalarOk(f.value)
    modifies line, line.text
    ensures line.Valid()
    ensures var part := FieldPart(old(|line.Contents()|), hasField, f, isJSON);
      line.Contents() == old(line.Contents()) + part && isAppended == (part != [])
  {
    hide BuiltField, Appended, ScalarOk;
    isAppended := false;
    var used := line.size + FIELDS_RESERVED;
    if used < CAPACITY {
      var text := BuildField(hasField, f, isJSON, CAPACITY - used);
      BuiltIsSomething(hasField, f, isJSON, CAPACITY - used);
      if text.size <= CAPACITY - used {
        AppendedWhole(line.Contents(), text.Contents());
        line.Append(text.text[..text.size]);
        isAppended := true;
      }
    }
  }

  lemma BuiltIsSomething(hasField: bool, f: Field, isJSON: bool, room: nat)
    requires room > 0
    ensures BuiltField(hasField, f, isJSON, room) != []
  {
    hide FieldMember, FieldText;
  }

  method AppendCrashFields(line: TCrashText, fields: seq<Field>, isJSON: bool) returns (hasField: bool)
    requires line.Valid() && forall f :: f in fields ==> ScalarOk(f.value)
    modifies line, line.text
    ensures line.Valid()
    ensures var part := FieldsPart(old(|line.Contents()|), [], fields, isJSON);
      line.Contents() == old(line.Contents()) + part && hasField == (part != [])
  {
    hide FieldPart, ScalarOk;
    hasField := false;
    ghost var before, written := line.Contents(), [];
    for i := 0 to |fields|
      invariant line.Valid() && line.Contents() == before + written && hasField == (written != [])
      invariant FieldsPart(|before|, written, fields[i..], isJSON) == FieldsPart(|before|, [], fields, isJSON)
    {
      ghost var part := FieldPart(line.size, hasField, fields[i], isJSON);
      assert fields[i..][1..] == fields[i + 1..];
      var isAppended := AppendField(line, hasField, fields[i], isJSON);
      Associates(before, written, part);
      written := written + part;
      hasField := hasField || isAppended;
    }
    assert fields[|fields|..] == [];
  }

  // ---- The JSON line, part by part -------------------------------------------------------

  method AppendWhole(line: TCrashText, t: seq<byte>)
    requires line.Valid() && |line.Contents()| + |t| <= CAPACITY
    modifies line, line.text
    ensures line.Valid() && line.Contents() == old(line.Contents()) + t
  {
    AppendedWhole(line.Contents(), t);
    line.Append(t);
  }

  method AppendStart(line: TCrashText, r: Record)
    requires line.Valid() && line.Contents() == [] && IsRecord(r)
    modifies line, line.text
    ensures line.Valid() && line.Contents() == Begun(Start(r))
  {
    hide Begun, Signed, KeyText, AllPlain;
    var epoch := Signed(r.epoch);
    StartFits(r);
    StartRenders(r.time, epoch, r.level);
    var first, second, third := [OPENS, QUOTE] + TIME + [QUOTE, COLON, QUOTE], KeyText(EPOCH_MS), KeyText(LEVEL);
    RegroupStart(first, r.time, [QUOTE], second, epoch, third, r.level);
    AppendWhole(line, first);
    assert line.Contents() == first;
    AppendWhole(line, r.time);
    AppendWhole(line, [QUOTE] + second);
    AppendWhole(line, epoch);
    AppendWhole(line, third + [QUOTE]);
    AppendWhole(line, r.level);
    AppendWhole(line, [QUOTE]);
  }

  lemma RegroupStart<T>(a: seq<T>, b: seq<T>, q: seq<T>, c: seq<T>, d: seq<T>, e: seq<T>, f: seq<T>)
    ensures a + b + q + c + d + e + (q + f + q) == a + b + (q + c) + d + (e + q) + f + q
  {
  }

  method AppendCategory(line: TCrashText, r: Record, ghost members: seq<Member>)
    requires line.Valid() && line.Contents() == Begun(members) && members != [] && |Begun(members)| <= 101
    modifies line, line.text
    ensures line.Valid() && line.Contents() == Begun(WithCategory(members, r))
  {
    hide Begun, RenderQuoted, QuotedAppended;
    if r.category != [] {
      ghost var begun := Begun(members) + KeyText(CATEGORY);
      NamesArePlain();
      AddsMember(members, CATEGORY, Text(Quoted(r.category, Minus(CAPACITY - CATEGORY_RESERVED - 1, |begun| + 1))));
      QuotedFits(begun, r.category, CATEGORY_RESERVED);
      AppendWhole(line, KeyText(CATEGORY));
      line.AppendJSONString(r.category, CATEGORY_RESERVED);
    }
  }

  method AppendIds(line: TCrashText, r: Record, ghost members: seq<Member>)
    requires line.Valid() && line.Contents() == Begun(members) && members != [] && |Begun(members)| <= 960 && IsRecord(r)
    modifies line, line.text
    ensures line.Valid() && line.Contents() == Begun(WithIds(members, r))
  {
    hide Begun, Digits;
    NamesArePlain();
    IdFits(r.processId);
    IdFits(r.threadId);
    ghost var pid := Member(Plain(PID), Literal(Digits(r.processId)));
    AddsMember(members, PID, pid.value);
    AddsMember(members + [pid], TID, Literal(Digits(r.threadId)));
    AppendWhole(line, KeyText(PID));
    AppendNumber(line, r.processId);
    AppendWhole(line, KeyText(TID));
    AppendNumber(line, r.threadId);
  }

  method AppendNumber(line: TCrashText, n: nat)
    requires line.Valid() && |line.Contents()| + |Digits(n)| <= CAPACITY
    modifies line, line.text
    ensures line.Valid() && line.Contents() == old(line.Contents()) + Digits(n)
  {
    AppendedWhole(line.Contents(), Digits(n));
    assert Zeros(0) + Digits(n) == Digits(n);
    assert Minus(1, |Digits(n)|) == 0;
    line.AppendDecimal(n, 1);
  }

  method AppendFieldsMember(line: TCrashText, r: Record, ghost members: seq<Member>)
    requires line.Valid() && line.Contents() == Begun(members) && members != [] && |Begun(members)| <= 994 && IsRecord(r)
    modifies line, line.text
    ensures line.Valid() && line.Contents() == Begun(WithFields(members, r))
  {
    hide Begun, KeptFields, FieldsPart;
    ghost var inside := Begun(members) + (KeyText(FIELDS) + [OPENS]);
    ghost var kept := KeptFields(|inside|, [], r.fields);
    if r.hasFields {
      var sizeBefore := line.size;
      AppendWhole(line, KeyText(FIELDS) + [OPENS]);
      var hasField := AppendCrashFields(line, r.fields, true);
      FieldsAreMembers(|inside|, [], r.fields);
      KeptFieldsFit(|inside|, [], r.fields);
      if hasField {
        NamesArePlain();
        AddsMember(members, FIELDS, Object(kept));
        AppendWhole(line, [CLOSES]);
        ObjectCloses(Begun(members), KeyText(FIELDS), kept);
      } else {
        line.Truncate(sizeBefore);
        assert line.Contents() == Begun(members);
      }
    } else {
      NoFields(|inside|);
    }
  }

  lemma NoFields(base: nat)
    ensures KeptFields(base, [], []) == []
  {
  }

  lemma ObjectCloses(begun: seq<byte>, keyText: seq<byte>, kept: seq<Member>)
    ensures begun + (keyText + [OPENS]) + RenderMembers(kept) + [CLOSES] == begun + keyText + Render(Object(kept))
  {
    hide RenderMembers;
  }

  method AppendRawAndMessage(line: TCrashText, r: Record, ending: M.Ending, ghost members: seq<Member>)
    requires line.Valid() && line.Contents() == Begun(members) && members != [] && |Begun(members)| <= 994
    modifies line, line.text
    ensures line.Valid() && line.Contents() == Begun(WithMessage(WithRaw(members, r), r, ending))
  {
    hide Begun, RenderQuoted, QuotedAppended;
    NamesArePlain();
    RawFits(members, r);
    if r.raw {
      AddsMember(members, RAW, Literal(TRUE));
      AppendWhole(line, KeyText(RAW) + TRUE);
      Associates(Begun(members), KeyText(RAW), TRUE);
    }
    ghost var all := WithRaw(members, r);
    ghost var begun := Begun(all) + KeyText(MESSAGE);
    var reserved := 1 + |M.EndingBytes(ending)|;
    AddsMember(all, MESSAGE, Text(Quoted(r.message, Minus(CAPACITY - 1 - reserved, |begun| + 1))));
    AppendWhole(line, KeyText(MESSAGE));
    QuotedFits(begun, r.message, reserved);
    line.AppendJSONString(r.message, reserved);
  }

  /** Whatever the record holds, the line is one complete JSON object and the line ending, in at most 1024 bytes. */
  method AppendCrashJSONLine(line: TCrashText, r: Record, usesCRLF: bool)
    requires line.Valid() && line.Contents() == [] && IsRecord(r)
    modifies line, line.text
    ensures line.Valid() && line.Contents() == JsonLine(r, if usesCRLF then M.CRLF else M.OnlyLF)
  {
    hide Begun, IsRecord, WithCategory, WithIds, WithFields, WithRaw, WithMessage;
    var ending := if usesCRLF then M.CRLF else M.OnlyLF;
    LineFits(r, ending);
    LineIsBegun(r, ending);
    AppendStart(line, r);
    AppendCategory(line, r, Start(r));
    AppendIds(line, r, WithCategory(Start(r), r));
    AppendFieldsMember(line, r, WithIds(WithCategory(Start(r), r), r));
    AppendRawAndMessage(line, r, ending, WithFields(WithIds(WithCategory(Start(r), r), r), r));
    AppendWhole(line, [CLOSES]);
    AppendWhole(line, M.EndingBytes(ending));
  }

  // ---- The text line ------------------------------------------------------------------

  const BETWEEN: seq<byte> := [0x5D, 0x5B]              // "]["
  const PROCESS: seq<byte> := [0x5D, 0x5B, 0x50, 0x3A]  // "][P:"
  const THREAD: seq<byte> := [0x5D, 0x5B, 0x54, 0x3A]   // "][T:"
  const TEXT_FOLLOWS: seq<byte> := [0x5D, 0x3A, 0x20]   // "]: "

  function Ids(r: Record): seq<byte> {
    (if r.category == [] then [] else BETWEEN + r.category) + (PROCESS + Digits(r.processId) + (THREAD + Digits(r.threadId)))
  }

  function WithTextFields(c: seq<byte>, r: Record): (head: seq<byte>)
    requires |c| <= CAPACITY
  {
    var begun := Appended(c, BETWEEN);
    var part := FieldsPart(|begun|, [], r.fields, false);
    if r.hasFields && part != [] then begun + part else c
  }

  /** The line up to the message, cut where the buffer ends. */
  function TextHead(r: Record): (head: seq<byte>)
    requires IsRecord(r)
    ensures |head| <= CAPACITY
  {
    hide FieldPart;
    var start := Appended([0x5B] + r.time + BETWEEN + r.level, Ids(r));
    TextFieldsFit(start, r);
    Appended(WithTextFields(start, r), TEXT_FOLLOWS)
  }

  lemma {:induction false} FieldsPartFits(base: nat, written: seq<byte>, fields: seq<Field>)
    requires base + |written| <= CAPACITY
    ensures base + |FieldsPart(base, written, fields, false)| <= CAPACITY
    decreases |fields|
  {
    hide BuiltField;
    if fields != [] {
      var part := FieldPart(base + |written|, written != [], fields[0], false);
      FieldsPartFits(base, written + part, fields[1..]);
    }
  }

  lemma TextFieldsFit(c: seq<byte>, r: Record)
    requires |c| <= CAPACITY
    ensures |WithTextFields(c, r)| <= CAPACITY
  {
    FieldsPartFits(|Appended(c, BETWEEN)|, [], r.fields);
  }

  /** The line after the head: as much of the message as fits before the line ending, which the line always ends with. */
  function TextLine(head: seq<byte>, r: Record, mode: M.Mode, ending: M.Ending): (line: seq<byte>)
    ensures |line| <= CAPACITY
  {
    var room := CAPACITY - |M.EndingBytes(ending)|;
    (if |head| <= room then head + M.RewrittenWithin(r.message, mode, ending, room - |head|) else head[..room])
    + M.EndingBytes(ending)
  }

  method AppendTextFields(line: TCrashText, r: Record)
    requires line.Valid() && IsRecord(r)
    modifies line, line.text
    ensures line.Valid() && line.Contents() == WithTextFields(old(line.Contents()), r)
  {
    hide FieldsPart, Appended, ScalarOk;
    if r.hasFields {
      var sizeBefore := line.size;
      ghost var before := line.Contents();
      line.Append(BETWEEN);
      AppendedWhole(before, BETWEEN);
      AppendedKeeps(before, BETWEEN);
      var hasField := AppendCrashFields(line, r.fields, false);
      if !hasField {
        line.Truncate(sizeBefore);
        assert line.Contents() == before;
      }
    }
  }

  lemma AppendedKeeps(c: seq<byte>, t: seq<byte>)
    requires |c| <= CAPACITY
    ensures Appended(c, t)[..|c|] == c
  {
  }

  method AppendTextIds(line: TCrashText, r: Record)
    requires line.Valid()
    modifies line, line.text
    ensures line.Valid() && line.Contents() == Appended(old(line.Contents()), Ids(r))
  {
    hide Appended, Digits, Zeros;
    ghost var before := line.Contents();
    ghost var category := if r.category == [] then [] else BETWEEN + r.category;
    ghost var process := PROCESS + Digits(r.processId);
    if r.category != [] {
      AppendedTwice(before, BETWEEN, r.category);
      line.Append(BETWEEN);
      line.Append(r.category);
    } else {
      AppendedWhole(before, []);
      assert before + [] == before;
    }
    AppendTextNumber(line, PROCESS, r.processId);
    AppendTextNumber(line, THREAD, r.threadId);
    AppendedTwice(Appended(before, category), process, THREAD + Digits(r.threadId));
    AppendedTwice(before, category, process + (THREAD + Digits(r.threadId)));
  }

  method AppendTextNumber(line: TCrashText, prefix: seq<byte>, n: nat)
    requires line.Valid()
    modifies line, line.text
    ensures line.Valid() && line.Contents() == Appended(old(line.Contents()), prefix + Digits(n))
  {
    hide Appended, Digits;
    AppendedTwice(line.Contents(), prefix, Digits(n));
    assert Zeros(0) + Digits(n) == Digits(n);
    assert Minus(1, |Digits(n)|) == 0;
    line.Append(prefix);
    line.AppendDecimal(n, 1);
  }

  /** Whatever the record holds, the line is at most 1024 bytes and ends with the line ending. */
  method AppendCrashLine(line: TCrashText, r: Record, usesCRLF: bool, mode: M.Mode)
    requires line.Valid() && line.Contents() == [] && IsRecord(r)
    modifies line, line.text
    ensures line.Valid() && line.Contents() == TextLine(TextHead(r), r, mode, if usesCRLF then M.CRLF else M.OnlyLF)
  {
    hide Ids, WithTextFields, Appended;
    var ending := if usesCRLF then M.CRLF else M.OnlyLF;
    AppendWhole(line, [0x5B]);
    AppendWhole(line, r.time);
    AppendWhole(line, BETWEEN);
    AppendWhole(line, r.level);
    assert line.Contents() == [0x5B] + r.time + BETWEEN + r.level;
    AppendTextIds(line, r);
    AppendTextFields(line, r);
    line.Append(TEXT_FOLLOWS);
    ghost var head := line.Contents();
    assert head == TextHead(r);
    line.AppendMultiline(r.message, mode, ending, |M.EndingBytes(ending)|);
    line.Truncate(CAPACITY - |M.EndingBytes(ending)|);
    MessageIsCut(head, r, mode, ending);
    AppendWhole(line, M.EndingBytes(ending));
  }

  lemma MessageIsCut(head: seq<byte>, r: Record, mode: M.Mode, ending: M.Ending)
    requires |head| <= CAPACITY
    ensures var room := CAPACITY - |M.EndingBytes(ending)|;
      var all := MultilineAppended(head, r.message, mode, ending, |M.EndingBytes(ending)|);
      TextLine(head, r, mode, ending) == all[..Min(|all|, room)] + M.EndingBytes(ending)
  {
    hide M.RewrittenWithin;
  }
}
