/** What a strict JSON reader finds in a crash line: the record's members, in order, with texts cut only at their end. */
module CrashLineReader {
  import opened Unicode
  import opened Transcoding
  import opened Words
  import opened Json
  import opened JsonPieces
  import opened JsonReader
  import opened CrashText
  import opened CrashLine
  import M = Multiline

  predicate MembersOk(members: seq<Member>) {
    forall m :: m in members ==> LiteralsOk(m.value)
  }

  lemma {:induction false} KeptFieldsOk(base: nat, kept: seq<Member>, fields: seq<Field>)
    requires MembersOk(kept) && forall f :: f in fields ==> ScalarOk(f.value)
    ensures MembersOk(KeptFields(base, kept, fields))
    decreases |fields|
  {
    hide RenderMembers, RenderMember, RenderQuoted, LiteralsOk;
    if fields != [] {
      var room := RoomAfter(base, kept);
      if room > 0 {
        FieldMemberOk(kept != [], fields[0], room);
      }
      KeptFieldsOk(base, KeptWith(base, kept, fields[0]), fields[1..]);
    }
  }

  lemma FieldMemberOk(hasField: bool, f: Field, room: nat)
    requires room > 0 && ScalarOk(f.value)
    ensures LiteralsOk(FieldMember(hasField, f, room).value)
  {
  }

  lemma StartOk(r: Record)
    requires IsRecord(r)
    ensures MembersOk(WithIds(WithCategory(Start(r), r), r))
  {
    hide RenderMembers, Signed, Digits, LiteralsOk, MembersOk;
    TextsOk(r);
    SignedIsLiteral(r.epoch);
    DigitsAreLiteral(r.processId);
    DigitsAreLiteral(r.threadId);
    var time, level := Member(Plain(TIME), Text(Plain(r.time))), Member(Plain(LEVEL), Text(Plain(r.level)));
    OkAdds([time], Member(Plain(EPOCH_MS), Literal(Signed(r.epoch))));
    OkAdds([time] + [Member(Plain(EPOCH_MS), Literal(Signed(r.epoch)))], level);
    assert [time] + [Member(Plain(EPOCH_MS), Literal(Signed(r.epoch)))] + [level] == Start(r);
    var b := WithCategory(Start(r), r);
    if r.category != [] { OkAdds(Start(r), b[|b| - 1]); }
    var pid := Member(Plain(PID), Literal(Digits(r.processId)));
    OkAdds(b, pid);
    OkAdds(b + [pid], Member(Plain(TID), Literal(Digits(r.threadId))));
  }

  lemma TextsOk(r: Record)
    ensures MembersOk([Member(Plain(TIME), Text(Plain(r.time)))]) && LiteralsOk(Text(Plain(r.level)))
    ensures forall q :: LiteralsOk(Text(q))
  {
  }

  lemma OkAdds(members: seq<Member>, m: Member)
    requires MembersOk(members) && LiteralsOk(m.value)
    ensures MembersOk(members + [m])
  {
    hide LiteralsOk;
  }

  lemma RestOk(members: seq<Member>, r: Record, ending: M.Ending)
    requires IsRecord(r) && MembersOk(members)
    ensures MembersOk(WithMessage(WithRaw(WithFields(members, r), r), r, ending))
  {
    hide RenderMembers, KeptFields;
    KeptFieldsOk(FieldsBase(members), [], r.fields);
    assert LiteralsOk(Literal(TRUE)) by { TrueIsLiteral(); }
  }

  lemma TrueIsLiteral()
    ensures LiteralsOk(Literal(TRUE))
  {
    assert LiteralLength(TRUE[3..]) == 1 && LiteralLength(TRUE[2..]) == 2;
    assert TRUE[1..][1..] == TRUE[2..] && TRUE[2..][1..] == TRUE[3..];
  }

  /** The line is one JSON object, which a strict reader reads to its end, before the line ending. */
  lemma LineReads(r: Record, ending: M.Ending)
    requires IsRecord(r)
    ensures |JsonLine(r, ending)| <= CAPACITY
    ensures ReadValue(JsonLine(r, ending)) == GotValue(Obj(MeaningOf(LineMembers(r, ending))), M.EndingBytes(ending))
  {
    hide Render, MeaningOf, ReadValue, WithCategory, WithIds, WithFields, WithRaw, WithMessage, IsRecord;
    LineFits(r, ending);
    StartOk(r);
    RestOk(WithIds(WithCategory(Start(r), r), r), r, ending);
    ObjectReads(LineMembers(r, ending), ending);
  }

  lemma ObjectReads(members: seq<Member>, ending: M.Ending)
    requires MembersOk(members)
    ensures ReadValue(Render(Object(members)) + M.EndingBytes(ending)) == GotValue(Obj(MeaningOf(members)), M.EndingBytes(ending))
  {
    hide RenderMembers, ReadValue;
    ReadsRendered(Object(members), M.EndingBytes(ending));
  }

  // ---- The members, in order ---------------------------------------------------------

  lemma {:induction false} MeaningJoins(a: seq<Member>, b: seq<Member>)
    ensures MeaningOf(a + b) == MeaningOf(a) + MeaningOf(b)
    decreases |a|
  {
    if a == [] {
      assert a + b == b;
    } else {
      assert (a + b)[1..] == a[1..] + b;
      MeaningJoins(a[1..], b);
    }
  }

  lemma AddsMeaning(members: seq<Member>, m: Member)
    ensures MeaningOf(members + [m]) == MeaningOf(members) + [(Characters(m.key), Meaning(m.value))]
  {
    MeaningJoins(members, [m]);
    assert [m][1..] == [];
  }

  lemma PlainCharacters(t: seq<byte>)
    requires AllPlain(t)
    ensures Characters(Plain(t)) == t
  {
    PlainRenders(t);
  }

  lemma SignIsMinus(n: int)
    ensures Signed(n) == if n < 0 then Ascii("-") + Digits(-n) else Digits(n)
  {
  }

  lemma StartMeaning(r: Record)
    requires IsRecord(r)
    ensures var epoch := if r.epoch < 0 then Ascii("-") + Digits(-r.epoch) else Digits(r.epoch);
      MeaningOf(Start(r)) == [(TIME, Str(r.time)), (EPOCH_MS, Lit(epoch)), (LEVEL, Str(r.level))]
  {
    SignIsMinus(r.epoch);
    hide Signed, Characters, CharactersWithin;
    NamesArePlain();
    PlainCharacters(TIME);
    PlainCharacters(EPOCH_MS);
    PlainCharacters(LEVEL);
    PlainCharacters(r.time);
    PlainCharacters(r.level);
    var s := Start(r);
    var none: seq<Member> := [];
    AddsMeaning(none, s[0]);
    AddsMeaning([s[0]], s[1]);
    AddsMeaning([s[0], s[1]], s[2]);
    assert none + [s[0]] == [s[0]] && [s[0]] + [s[1]] == [s[0], s[1]] && [s[0], s[1]] + [s[2]] == s;
    assert MeaningOf(none) == [];
  }

  /** The message ends the object. What the reader gets is the message's first characters: all of them if and only if
      the escaped message fits. */
  lemma MessageMeaning(members: seq<Member>, r: Record, ending: M.Ending)
    requires |Begun(members)| <= 1005
    ensures var all := MeaningOf(WithMessage(members, r, ending));
      var room := CAPACITY - 2 - |M.EndingBytes(ending)| - (|Begun(members)| + |KeyText(MESSAGE)| + 1);
      && |all| == |MeaningOf(members)| + 1 && all[..|all| - 1] == MeaningOf(members)
      && all[|all| - 1].0 == MESSAGE && all[|all| - 1].1.Str?
      && all[|all| - 1].1.text <= Scalars8(r.message)
      && room > 0 && (all[|all| - 1].1.text == Scalars8(r.message) <==> |Escaped(r.message)| <= room)
  {
    hide RenderMembers, MeaningOf, EscapedWithin, Escaped, Scalars8;
    var room := Minus(CAPACITY - 2 - |M.EndingBytes(ending)|, |Begun(members)| + |KeyText(MESSAGE)| + 1);
    var m := Member(Plain(MESSAGE), Text(Quoted(r.message, room)));
    AddsMeaning(members, m);
    NamesArePlain();
    PlainCharacters(MESSAGE);
    AllFits(r.message, room);
  }

  /** The fields the line keeps. */
  function Kept(r: Record): seq<Member> {
    KeptFields(FieldsBase(WithIds(WithCategory(Start(r), r), r)), [], r.fields)
  }

  /** The members before the message. */
  lemma MembersMeaning(r: Record)
    requires IsRecord(r)
    ensures var categoryRoom := Minus(CAPACITY - CATEGORY_RESERVED - 1, |Begun(Start(r))| + |KeyText(CATEGORY)| + 1);
      var kept := Kept(r);
      MeaningOf(BeforeMessage(r))
      == MeaningOf(Start(r))
         + (if r.category == [] then [] else [(CATEGORY, Str(Characters(Quoted(r.category, categoryRoom))))])
         + [(PID, Lit(Digits(r.processId)))] + [(TID, Lit(Digits(r.threadId)))]
         + (if kept == [] then [] else [(FIELDS, Obj(MeaningOf(kept)))])
         + (if r.raw then [(RAW, Lit(TRUE))] else [])
  {
    hide RenderMembers, MeaningOf, Characters, KeptFields, IsRecord, Digits, AllPlain;
    NamesArePlain();
    PlainCharacters(CATEGORY);
    PlainCharacters(PID);
    PlainCharacters(TID);
    PlainCharacters(FIELDS);
    PlainCharacters(RAW);
    var a := WithCategory(Start(r), r);
    if r.category != [] {
      AddsMeaning(Start(r), a[|a| - 1]);
    }
    var pid := Member(Plain(PID), Literal(Digits(r.processId)));
    AddsMeaning(a, pid);
    AddsMeaning(a + [pid], Member(Plain(TID), Literal(Digits(r.threadId))));
    var b := WithIds(a, r);
    var c := WithFields(b, r);
    if c != b {
      AddsMeaning(b, c[|c| - 1]);
    }
    AddsMeaning(c, Member(Plain(RAW), Literal(TRUE)));
  }

  // ---- The fields kept ------------------------------------------------------------------

  /** 'm' holds the field: its key and text as they are, or their first characters, and a number or a truth value whole. */
  ghost predicate HoldsField(m: Member, f: Field) {
    && Characters(m.key) <= Scalars8(f.key)
    && match f.value
       case TextValue(text) => m.value.Text? && Characters(m.value.quoted) <= Scalars8(text)
       case Scalar(_, json) => m.value == json
  }

  /** 'kept' holds some of the fields, in their order. */
  ghost predicate HoldsSome(kept: seq<Member>, fields: seq<Field>)
    decreases |fields|
  {
    if kept == [] then true
    else fields != [] &&
         ((HoldsField(kept[|kept| - 1], fields[|fields| - 1]) && HoldsSome(kept[..|kept| - 1], fields[..|fields| - 1])) ||
          HoldsSome(kept, fields[..|fields| - 1]))
  }

  lemma {:induction false} KeptFieldsHold(base: nat, kept: seq<Member>, done: seq<Field>, fields: seq<Field>)
    requires HoldsSome(kept, done)
    ensures HoldsSome(KeptFields(base, kept, fields), done + fields)
    decreases |fields|
  {
    hide RenderMembers, RenderMember, HoldsField, FieldMember;
    if fields == [] {
      assert done + fields == done;
    } else {
      var f, room, next := fields[0], RoomAfter(base, kept), KeptWith(base, kept, fields[0]);
      assert (done + [f]) + fields[1..] == done + fields && (done + [f])[..|done|] == done;
      if room > 0 {
        FieldIsHeld(kept != [], f, room);
        assert next == kept || next[..|kept|] == kept;
      }
      KeptFieldsHold(base, next, done + [f], fields[1..]);
    }
  }

  lemma FieldIsHeld(hasField: bool, f: Field, room: nat)
    requires room > 0
    ensures HoldsField(FieldMember(hasField, f, room), f)
  {
    hide RenderQuoted, CharactersWithin, Scalars8;
  }

  lemma {:induction false} KeptFieldsSplit(base: nat, kept: seq<Member>, fields: seq<Field>, rest: seq<Field>)
    ensures KeptFields(base, kept, fields + rest) == KeptFields(base, KeptFields(base, kept, fields), rest)
    ensures kept <= KeptFields(base, kept, fields)
    decreases |fields|
  {
    hide KeptWith;
    if fields == [] {
      assert fields + rest == rest;
    } else {
      assert (fields + rest)[1..] == fields[1..] + rest && (fields + rest)[0] == fields[0];
      KeptFieldsSplit(base, KeptWith(base, kept, fields[0]), fields[1..], rest);
      KeepsOn(base, kept, fields[0]);
    }
  }

  lemma KeepsOn(base: nat, kept: seq<Member>, f: Field)
    ensures kept <= KeptWith(base, kept, f)
  {
    hide RenderMembers, FieldMember, FieldSize;
  }

  lemma KeptFieldsSnoc(base: nat, fields: seq<Field>, f: Field)
    ensures KeptFields(base, [], fields + [f]) == KeptWith(base, KeptFields(base, [], fields), f)
  {
    hide KeptWith;
    KeptFieldsSplit(base, [], fields, [f]);
    var one := [f];
    assert one[1..] == [];
  }

  /** Of the fields in the line, the j-th is kept if and only if it fits, with its texts cut, into the room that the fields
      before it left; and then its key is whole if and only if it fits, escaped, before its closing quote. */
  lemma KeyIsWhole(r: Record, j: nat)
    requires j < |r.fields|
    ensures var f, base := r.fields[j], FieldsBase(WithIds(WithCategory(Start(r), r), r));
      var before, after := KeptFields(base, [], r.fields[..j]), KeptFields(base, [], r.fields[..j + 1]);
      var room, hasField := RoomAfter(base, before), before != [];
      && after <= Kept(r)
      && (after != before <==> room > 0 && FieldSize(hasField, FieldMember(hasField, f, room)) <= room)
      && (after != before ==>
            && after == before + [FieldMember(hasField, f, room)] && HoldsField(after[|before|], f)
            && (Characters(after[|before|].key) == Scalars8(f.key)
                <==> |Escaped(f.key)| <= Minus(room - 1, if hasField then 2 else 1)))
  {
    hide Begun, Start, WithCategory, WithIds, KeptFields, RenderMembers, FieldSize, HoldsField, Escaped, Scalars8, EscapedWithin;
    var f, base := r.fields[j], FieldsBase(WithIds(WithCategory(Start(r), r), r));
    assert r.fields[..j] + [f] == r.fields[..j + 1] && r.fields[..j + 1] + r.fields[j + 1..] == r.fields;
    KeptFieldsSnoc(base, r.fields[..j], f);
    KeptFieldsSplit(base, [], r.fields[..j + 1], r.fields[j + 1..]);
    KeptFieldsSplit(base, KeptFields(base, [], r.fields[..j + 1]), r.fields[j + 1..], []);
    var before := KeptFields(base, [], r.fields[..j]);
    var room := RoomAfter(base, before);
    if room > 0 {
      FieldIsHeld(before != [], f, room);
      AllFits(f.key, Minus(room - 1, if before != [] then 2 else 1));
    }
  }

  /** The text of a kept field is whole if and only if the whole field fits. */
  lemma ValueIsWhole(hasField: bool, f: Field, room: nat)
    requires room > 0 && f.value.TextValue? && FieldSize(hasField, FieldMember(hasField, f, room)) <= room
    ensures var m := FieldMember(hasField, f, room);
      Characters(m.value.quoted) == Scalars8(f.value.text)
      <==> (if hasField then 1 else 0) + |RenderQuoted(m.key)| + 1 + |Escaped(f.value.text)| + 2 <= room
  {
    hide EscapedWithin, Escaped, Scalars8;
    var m := FieldMember(hasField, f, room);
    AllFits(f.value.text, m.value.quoted.room);
    var all := Scalars8(f.value.text);
    assert all[..|all|] == all;
    assert |Render(m.value)| >= 2 && |RenderMember(m)| == |RenderQuoted(m.key)| + 1 + |Render(m.value)|;
  }

  /** The category is whole if and only if it leaves 64 bytes free. */
  lemma CategoryIsWhole(r: Record)
    requires IsRecord(r) && r.category != []
    ensures var m := WithCategory(Start(r), r)[|Start(r)|];
      m.value.Text? && m.value.quoted.text == r.category
      && (Characters(m.value.quoted) == Scalars8(r.category)
          <==> |Begun(Start(r)) + Ascii(",\"category\":\"") + Escaped(r.category) + Ascii("\"")| + 64 <= 1024)
  {
    hide EscapedWithin, Escaped, Scalars8, Begun, Start, Ascii, CharactersWithin;
    CategoryKey();
    assert Escaped(r.category) != [] by { SomethingIsEscaped(r.category); }
    AllFits(r.category, WithCategory(Start(r), r)[|Start(r)|].value.quoted.room);
    var all := Scalars8(r.category);
    assert all[..|all|] == all;
  }

  lemma CategoryKey()
    ensures |Ascii(",\"category\":\"")| == |KeyText(CATEGORY)| + 1 && |Ascii("\"")| == 1
  {
  }

  lemma SomethingIsEscaped(t: seq<byte>)
    requires t != []
    ensures Escaped(t) != []
  {
  }

  // ---- A field that isn't whole --------------------------------------------------------------

  const CUT_FIELD := Field([0x61, 0x01], Scalar([0x31], Literal([0x31])))

  /** A field that is one byte short of whole: with 8 bytes of room, the key loses the control character it ends in. */
  lemma CutKeyFits()
    ensures var m := FieldMember(false, CUT_FIELD, 8);
      Characters(m.key) == [0x61] && m.value == Literal([0x31]) && FieldSize(false, m) == 5
    ensures Scalars8(CUT_FIELD.key) == [0x61, 0x01]
  {
    var m := FieldMember(false, CUT_FIELD, 8);
    var key, second := CUT_FIELD.key, CUT_FIELD.key[1..];
    assert second == [0x01];
    AsciiLength(key);
    AsciiLength(second);
    assert second[1..] == [] && Scalars8(second) == [0x01] && Scalars8(key) == [0x61] + Scalars8(second);
    assert EscapedUnit(key) == [0x61] && |EscapedUnit(second)| == 6;
    assert EscapedWithin(second, 5) == [] && CharactersWithin(second, 5) == 0;
    assert EscapedWithin(key, 6) == [0x61] + EscapedWithin(second, 5);
    assert m.key == Quoted(key, 6) && Characters(m.key) == [0x61] && |RenderQuoted(m.key)| == 3;
  }

  /** 1970-01-01T00:00:00.000Z */
  const EPOCH_TEXT: seq<byte> := [
    0x31, 0x39, 0x37, 0x30, 0x2D, 0x30, 0x31, 0x2D, 0x30, 0x31, 0x54,
    0x30, 0x30, 0x3A, 0x30, 0x30, 0x3A, 0x30, 0x30, 0x2E, 0x30, 0x30, 0x30, 0x5A]

  const INFO: seq<byte> := [0x49, 0x4E, 0x46, 0x4F]

  /** An INFO entry of thread 1 of process 1, stamped at the epoch, with a category of 817 letters. */
  const CUT_RECORD := Record(EPOCH_TEXT, 0, INFO, seq(817, _ => 0x61), 1, 1, true, [CUT_FIELD], false, [])

  lemma CutStartSize()
    ensures IsRecord(CUT_RECORD) && |Begun(Start(CUT_RECORD))| == 62
  {
    hide Begun, RenderQuoted;
    StartRenders(EPOCH_TEXT, Signed(0), INFO);
  }

  lemma CutCategorySize()
    ensures |Begun(WithCategory(Start(CUT_RECORD), CUT_RECORD))| == 893
  {
    hide RenderMembers, RenderQuoted, EscapedWithin;
    CutStartSize();
    NamesArePlain();
    CategoryRenders(CUT_RECORD.category);
    AddsMember(Start(CUT_RECORD), CATEGORY, Text(Quoted(CUT_RECORD.category, 884)));
  }

  lemma CutRecordSize()
    ensures IsRecord(CUT_RECORD)
    ensures FieldsBase(WithIds(WithCategory(Start(CUT_RECORD), CUT_RECORD), CUT_RECORD)) == 920
  {
    hide Begun, WithCategory;
    CutStartSize();
    CutCategorySize();
    NamesArePlain();
    var b, pid := WithCategory(Start(CUT_RECORD), CUT_RECORD), Member(Plain(PID), Literal(Digits(1)));
    assert b != [] by { CutHasMembers(); }
    AddsMember(b, PID, pid.value);
    AddsMember(b + [pid], TID, Literal(Digits(1)));
  }

  lemma CutHasMembers()
    ensures WithCategory(Start(CUT_RECORD), CUT_RECORD) != []
  {
  }

  lemma CategoryRenders(category: seq<byte>)
    requires AllPlain(category) && |category| <= 884
    ensures |Render(Text(Quoted(category, 884)))| == |category| + 2
  {
    PlainIsRun(category, 884);
  }

  /** Not every kept field is whole: of this record's line, a strict reader gets a field whose key lost a character. */
  lemma CutKeyIsRead(ending: M.Ending) returns (members: seq<(seq<character>, JsonValue)>)
    ensures IsRecord(CUT_RECORD) && Scalars8(CUT_RECORD.fields[0].key) == [0x61, 0x01]
    ensures ReadValue(JsonLine(CUT_RECORD, ending)) == GotValue(Obj(members), M.EndingBytes(ending))
    ensures (FIELDS, Obj([([0x61], Lit([0x31]))])) in members
  {
    hide RenderMembers, RenderMember, FieldMember, FieldSize, Characters, Scalars8, Begun, Start, WithCategory, WithIds;
    hide ReadValue, JsonLine, Digits, CharactersWithin;
    var r := CUT_RECORD;
    CutRecordSize();
    CutKeyFits();
    LineReads(r, ending);
    members := MeaningOf(LineMembers(r, ending));
    CutFieldIsKept();
    CutFieldMeans(Kept(r));
    MembersMeaning(r);
    LineFits(r, ending);
    MessageMeaning(BeforeMessage(r), r, ending);
    assert (FIELDS, Obj(MeaningOf(Kept(r)))) in MeaningOf(BeforeMessage(r));
  }

  lemma CutFieldIsKept()
    ensures Kept(CUT_RECORD) == [FieldMember(false, CUT_FIELD, 8)]
  {
    hide RenderMember, FieldMember, FieldSize, Begun, Start, WithCategory, WithIds;
    CutRecordSize();
    CutKeyFits();
    var none: seq<Field> := [];
    KeptFieldsSnoc(920, none, CUT_FIELD);
    assert none + [CUT_FIELD] == CUT_RECORD.fields && RenderMembers([]) == [];
  }

  lemma {:induction false} CutFieldMeans(kept: seq<Member>)
    requires |kept| == 1 && Characters(kept[0].key) == [0x61] && kept[0].value == Literal([0x31])
    ensures MeaningOf(kept) == [([0x61], Lit([0x31]))]
  {
    assert kept[1..] == [];
    assert MeaningOf(kept[1..]) == [];
    assert Meaning(kept[0].value) == Lit([0x31]);
    assert MeaningOfMember(kept[0]) == ([0x61], Lit([0x31]));
  }
}
