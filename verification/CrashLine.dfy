/** The crash lines: one complete JSON object, or one text line, in at most 1024 bytes, whatever the record holds. */
module CrashLine {
  import opened Unicode
  import opened Transcoding
  import opened Words
  import opened Json
  import opened JsonPieces
  import opened JsonReader
  import opened Sequences
  import opened CrashText
  import M = Multiline

  datatype FieldValue = TextValue(text: seq<byte>) | Scalar(plain: seq<byte>, json: Tree)
  datatype Field = Field(key: seq<byte>, value: FieldValue)

  /** 'time' is the ISO 8601 text, 'epoch' the milliseconds, and 'fields' what visiting the entry's fields yields. */
  datatype Record = Record(
    time: seq<byte>,
    epoch: int,
    level: seq<byte>,
    category: seq<byte>,
    processId: nat,
    threadId: nat,
    hasFields: bool,
    fields: seq<Field>,
    raw: bool,
    message: seq<byte>)

  predicate AllPlain(t: seq<byte>) {
    forall i :: 0 <= i < |t| ==> IsPlainJSONCharacter(t[i])
  }

  /** A number, true, false, or the name of a number JSON doesn't have, in the 32 bytes it is written into. */
  predicate ScalarOk(value: FieldValue) {
    value.Scalar? ==>
      && |value.plain| <= 32 && |Render(value.json)| <= 32 && !value.json.Object? && LiteralsOk(value.json)
  }

  predicate IsRecord(r: Record) {
    && AllPlain(r.time) && 0 < |r.time| <= 40 && AllPlain(r.level) && 0 < |r.level| <= 8
    && -0x8000_0000_0000_0000 <= r.epoch < 0x8000_0000_0000_0000
    && r.processId < 0x1_0000_0000 && r.threadId < 0x1_0000_0000
    && (r.fields != [] ==> r.hasFields)
    && forall f :: f in r.fields ==> ScalarOk(f.value)
  }

  // The names of the members
  const TIME: seq<byte> := [0x74, 0x69, 0x6D, 0x65]
  const EPOCH_MS: seq<byte> := [0x65, 0x70, 0x6F, 0x63, 0x68, 0x5F, 0x6D, 0x73]
  const LEVEL: seq<byte> := [0x6C, 0x65, 0x76, 0x65, 0x6C]
  const CATEGORY: seq<byte> := [0x63, 0x61, 0x74, 0x65, 0x67, 0x6F, 0x72, 0x79]
  const PID: seq<byte> := [0x70, 0x69, 0x64]
  const TID: seq<byte> := [0x74, 0x69, 0x64]
  const FIELDS: seq<byte> := [0x66, 0x69, 0x65, 0x6C, 0x64, 0x73]
  const RAW: seq<byte> := [0x72, 0x61, 0x77]
  const MESSAGE: seq<byte> := [0x6D, 0x65, 0x73, 0x73, 0x61, 0x67, 0x65]

  lemma Names()
    ensures TIME == Ascii("time") && EPOCH_MS == Ascii("epoch_ms") && LEVEL == Ascii("level") && CATEGORY == Ascii("category")
    ensures PID == Ascii("pid") && TID == Ascii("tid") && FIELDS == Ascii("fields") && RAW == Ascii("raw")
    ensures MESSAGE == Ascii("message")
  {
    hide Ascii;
  }

  const FIELDS_RESERVED: nat := 96
  const CATEGORY_RESERVED: nat := 64

  function Plain(t: seq<byte>): Quoted {
    Quoted(t, |t|)
  }

  function Signed(n: int): seq<byte> {
    if n < 0 then [0x2D] + Digits(-n) else Digits(n)
  }

  /** The comma before a member, and its name. */
  function KeyText(key: seq<byte>): seq<byte> {
    [COMMA, QUOTE] + key + [QUOTE, COLON]
  }

  // ---- The members a line gets -----------------------------------------------------

  /** The line so far: an object that isn't closed yet. */
  function Begun(members: seq<Member>): seq<byte> {
    [OPENS] + RenderMembers(members)
  }

  function Start(r: Record): seq<Member> {
    [Member(Plain(TIME), Text(Plain(r.time))), Member(Plain(EPOCH_MS), Literal(Signed(r.epoch))),
     Member(Plain(LEVEL), Text(Plain(r.level)))]
  }

  function WithCategory(members: seq<Member>, r: Record): seq<Member> {
    if r.category == [] then members
    else
      var room := Minus(CAPACITY - CATEGORY_RESERVED - 1, |Begun(members)| + |KeyText(CATEGORY)| + 1);
      members + [Member(Plain(CATEGORY), Text(Quoted(r.category, room)))]
  }

  function WithIds(members: seq<Member>, r: Record): seq<Member> {
    members + [Member(Plain(PID), Literal(Digits(r.processId)))] + [Member(Plain(TID), Literal(Digits(r.threadId)))]
  }

  /** A field as a member, its texts cut to 'room' bytes in all. */
  function FieldMember(hasField: bool, f: Field, room: nat): Member
    requires room > 0
  {
    var comma := if hasField then 1 else 0;
    var key := Quoted(f.key, Minus(room - 1, comma + 1));
    var used := comma + |RenderQuoted(key)| + 1;
    Member(key, if f.value.TextValue? then Text(Quoted(f.value.text, Minus(room - 1, used + 1))) else f.value.json)
  }

  function FieldSize(hasField: bool, m: Member): nat {
    |RenderMember(m)| + if hasField then 1 else 0
  }

  /** The room left for a field after the ones kept before it. */
  function RoomAfter(base: nat, kept: seq<Member>): nat {
    Minus(CAPACITY, base + |RenderMembers(kept)| + FIELDS_RESERVED)
  }

  function KeptWith(base: nat, kept: seq<Member>, f: Field): seq<Member> {
    var room := RoomAfter(base, kept);
    if room == 0 then kept
    else
      var m := FieldMember(kept != [], f, room);
      if FieldSize(kept != [], m) <= room then kept + [m] else kept
  }

  /** The members after visiting 'fields', in a line of 'base' bytes before the first. */
  function KeptFields(base: nat, kept: seq<Member>, fields: seq<Field>): seq<Member>
    decreases |fields|
  {
    if fields == [] then kept else KeptFields(base, KeptWith(base, kept, fields[0]), fields[1..])
  }

  /** The size of the line up to the first field. */
  function FieldsBase(members: seq<Member>): nat {
    |Begun(members)| + |KeyText(FIELDS)| + 1
  }

  function WithFields(members: seq<Member>, r: Record): seq<Member> {
    var kept := KeptFields(FieldsBase(members), [], r.fields);
    if kept == [] then members else members + [Member(Plain(FIELDS), Object(kept))]
  }

  function WithRaw(members: seq<Member>, r: Record): seq<Member> {
    if r.raw then members + [Member(Plain(RAW), Literal(TRUE))] else members
  }

  function WithMessage(members: seq<Member>, r: Record, ending: M.Ending): seq<Member> {
    var room := Minus(CAPACITY - 2 - |M.EndingBytes(ending)|, |Begun(members)| + |KeyText(MESSAGE)| + 1);
    members + [Member(Plain(MESSAGE), Text(Quoted(r.message, room)))]
  }

  function BeforeMessage(r: Record): seq<Member> {
    WithRaw(WithFields(WithIds(WithCategory(Start(r), r), r), r), r)
  }

  function LineMembers(r: Record, ending: M.Ending): seq<Member> {
    WithMessage(BeforeMessage(r), r, ending)
  }

  // ---- Plain texts and numbers ----------------------------------------------------

  lemma PlainUnit(t: seq<byte>)
    requires t != [] && IsPlainJSONCharacter(t[0])
    ensures EscapedUnit(t) == [t[0]] && UnitLength(t) == 1 && Scalars8(t) == [t[0]] + Scalars8(t[1..])
  {
    hide CharacterLength, SubpartLength, Escape;
    AsciiLength(t);
    assert t[..1] == [t[0]];
  }

  /** Plain text is written as it is where it fits. */
  lemma {:induction false} PlainIsRun(t: seq<byte>, room: nat)
    requires AllPlain(t) && |t| <= room
    ensures EscapedWithin(t, room) == t && CharactersWithin(t, room) == |t| && Scalars8(t) == t
    decreases t
  {
    hide EscapedUnit, UnitLength, Decode8;
    if t != [] {
      PlainUnit(t);
      PlainIsRun(t[1..], room - 1);
    }
  }

  lemma PlainRenders(t: seq<byte>)
    requires AllPlain(t)
    ensures RenderQuoted(Plain(t)) == [QUOTE] + t + [QUOTE] && Characters(Plain(t)) == t
  {
    PlainIsRun(t, |t|);
    assert t[..|t|] == t;
  }

  lemma {:induction false} DigitsAreNumber(n: nat)
    ensures forall i :: 0 <= i < |Digits(n)| ==> IsDigit(Digits(n)[i])
    ensures n > 0 ==> Digits(n)[0] != 0x30
    ensures n == 0 ==> |Digits(n)| == 1
  {
    if n >= 10 {
      DigitsAreNumber(n / 10);
    }
  }

  lemma {:induction false} AllDigits(t: seq<byte>)
    requires forall i :: 0 <= i < |t| ==> IsDigit(t[i])
    ensures DigitCount(t) == |t| && LiteralLength(t) == |t|
  {
    if t != [] {
      AllDigits(t[1..]);
    }
  }

  lemma DigitsAreLiteral(n: nat)
    ensures LiteralsOk(Literal(Digits(n)))
  {
    DigitsAreNumber(n);
    AllDigits(Digits(n));
    assert Digits(n)[|Digits(n)|..] == [];
  }

  lemma SignedIsLiteral(n: int)
    ensures LiteralsOk(Literal(Signed(n)))
  {
    if n < 0 {
      DigitsAreNumber(-n);
      AllDigits(Digits(-n));
      assert Signed(n)[1..] == Digits(-n) && Digits(-n)[|Digits(-n)|..] == [];
    } else {
      DigitsAreLiteral(n);
    }
  }

  function PowerOfTen(k: nat): nat {
    if k == 0 then 1 else 10 * PowerOfTen(k - 1)
  }

  lemma {:induction false} DigitsFit(n: nat, k: nat)
    requires k > 0 && n < PowerOfTen(k)
    ensures |Digits(n)| <= k
    decreases k
  {
    if n >= 10 {
      assert k > 1 by {
        assert PowerOfTen(1) == 10 * PowerOfTen(0);
      }
      DigitsFit(n / 10, k - 1);
    }
  }

  lemma IdFits(n: nat)
    requires n < 0x1_0000_0000
    ensures |Digits(n)| <= 10
  {
    assert PowerOfTen(5) == 100_000;
    assert PowerOfTen(10) == 10_000_000_000;
    DigitsFit(n, 10);
  }

  lemma EpochFits(n: int)
    requires -0x8000_0000_0000_0000 <= n < 0x8000_0000_0000_0000
    ensures |Signed(n)| <= 20
  {
    assert PowerOfTen(5) == 100_000;
    assert PowerOfTen(10) == 10_000_000_000;
    assert PowerOfTen(15) == 1_000_000_000_000_000;
    assert PowerOfTen(19) == 10_000_000_000_000_000_000;
    DigitsFit(if n < 0 then -n else n, 19);
  }

  // ---- The reserves suffice ------------------------------------------------------------

  lemma MemberText(key: seq<byte>, value: Tree)
    requires AllPlain(key)
    ensures [COMMA] + RenderMember(Member(Plain(key), value)) == KeyText(key) + Render(value)
  {
    hide Render, RenderQuoted, AllPlain;
    PlainRenders(key);
  }

  /** A member more is its comma, its name and its value. */
  lemma AddsMember(members: seq<Member>, key: seq<byte>, value: Tree)
    requires members != [] && AllPlain(key)
    ensures Begun(members + [Member(Plain(key), value)]) == Begun(members) + KeyText(key) + Render(value)
  {
    hide RenderMembers, RenderMember, Render, KeyText, AllPlain;
    var m, rendered := Member(Plain(key), value), RenderMembers(members);
    RenderSnoc(members, m);
    MemberText(key, value);
    Associates(rendered, [COMMA], RenderMember(m));
    Associates([OPENS], rendered, KeyText(key) + Render(value));
    Associates([OPENS] + rendered, KeyText(key), Render(value));
  }

  lemma FirstRenders(name: seq<byte>, time: seq<byte>)
    requires AllPlain(name) && AllPlain(time)
    ensures Begun([Member(Plain(name), Text(Plain(time)))])
         == [OPENS, QUOTE] + name + [QUOTE, COLON, QUOTE] + time + [QUOTE]
  {
    hide RenderQuoted, AllPlain, Render, RenderMember;
    var m := Member(Plain(name), Text(Plain(time)));
    PlainRenders(time);
    PlainRenders(name);
    OneMember(m);
    assert RenderMember(m) == ([QUOTE] + name + [QUOTE]) + [COLON] + ([QUOTE] + time + [QUOTE]);
    Regroup(OPENS, QUOTE, COLON, name, time);
  }

  lemma OneMember(m: Member)
    ensures RenderMembers([m]) == RenderMember(m) == RenderQuoted(m.key) + [COLON] + Render(m.value)
    ensures m.value.Text? ==> Render(m.value) == RenderQuoted(m.value.quoted)
  {
    hide RenderQuoted;
  }

  lemma Regroup<T>(o: T, q: T, c: T, name: seq<T>, time: seq<T>)
    ensures [o] + (([q] + name + [q]) + [c] + ([q] + time + [q])) == [o, q] + name + [q, c, q] + time + [q]
  {
  }

  lemma StartRenders(time: seq<byte>, epoch: seq<byte>, level: seq<byte>)
    requires AllPlain(time) && AllPlain(level)
    ensures Begun([Member(Plain(TIME), Text(Plain(time))), Member(Plain(EPOCH_MS), Literal(epoch)),
                   Member(Plain(LEVEL), Text(Plain(level)))])
         == [OPENS, QUOTE] + TIME + [QUOTE, COLON, QUOTE] + time + [QUOTE] + KeyText(EPOCH_MS) + epoch
            + KeyText(LEVEL) + ([QUOTE] + level + [QUOTE])
  {
    hide Begun, KeyText, RenderQuoted, AllPlain;
    var first, second := Member(Plain(TIME), Text(Plain(time))), Member(Plain(EPOCH_MS), Literal(epoch));
    NamesArePlain();
    FirstRenders(TIME, time);
    PlainRenders(level);
    AddsMember([first], EPOCH_MS, Literal(epoch));
    AddsMember([first, second], LEVEL, Text(Plain(level)));
    assert [first] + [second] == [first, second];
    assert [first, second] + [Member(Plain(LEVEL), Text(Plain(level)))] == [first, second, Member(Plain(LEVEL), Text(Plain(level)))];
  }

  lemma NamesArePlain()
    ensures AllPlain(TIME) && AllPlain(EPOCH_MS) && AllPlain(LEVEL) && AllPlain(CATEGORY) && AllPlain(PID) && AllPlain(TID)
    ensures AllPlain(FIELDS) && AllPlain(RAW) && AllPlain(MESSAGE)
  {
  }

  lemma StartFits(r: Record)
    requires IsRecord(r)
    ensures |Begun(Start(r))| <= 101
  {
    StartRenders(r.time, Signed(r.epoch), r.level);
    EpochFits(r.epoch);
  }

  lemma CategoryFits(members: seq<Member>, r: Record)
    requires members != [] && |Begun(members)| <= 101
    ensures WithCategory(members, r) != [] && |Begun(WithCategory(members, r))| <= CAPACITY - CATEGORY_RESERVED
  {
    hide RenderMembers;
    if r.category != [] {
      var room := Minus(CAPACITY - CATEGORY_RESERVED - 1, |Begun(members)| + |KeyText(CATEGORY)| + 1);
      AddsMember(members, CATEGORY, Text(Quoted(r.category, room)));
    }
  }

  lemma IdsFit(members: seq<Member>, r: Record)
    requires IsRecord(r) && members != [] && |Begun(members)| <= CAPACITY - CATEGORY_RESERVED
    ensures WithIds(members, r) != [] && |Begun(WithIds(members, r))| <= 994
  {
    hide RenderMembers, Digits;
    IdFits(r.processId);
    IdFits(r.threadId);
    var pid := Member(Plain(PID), Literal(Digits(r.processId)));
    AddsMember(members, PID, pid.value);
    AddsMember(members + [pid], TID, Literal(Digits(r.threadId)));
  }

  lemma {:induction false} KeptFieldsFit(base: nat, kept: seq<Member>, fields: seq<Field>)
    requires kept == [] || base + |RenderMembers(kept)| <= CAPACITY - FIELDS_RESERVED
    ensures var all := KeptFields(base, kept, fields);
      all == [] || base + |RenderMembers(all)| <= CAPACITY - FIELDS_RESERVED
    decreases |fields|
  {
    hide RenderMember, FieldMember;
    if fields != [] {
      var room := RoomAfter(base, kept);
      if room > 0 {
        RenderSnoc(kept, FieldMember(kept != [], fields[0], room));
      }
      KeptFieldsFit(base, KeptWith(base, kept, fields[0]), fields[1..]);
    }
  }

  lemma FieldsFit(members: seq<Member>, r: Record)
    requires members != [] && |Begun(members)| <= 994
    ensures WithFields(members, r) != [] && |Begun(WithFields(members, r))| <= 994
  {
    hide RenderMembers;
    var base := FieldsBase(members);
    var kept := KeptFields(base, [], r.fields);
    KeptFieldsFit(base, [], r.fields);
    if kept != [] {
      AddsMember(members, FIELDS, Object(kept));
    }
  }

  lemma RawFits(members: seq<Member>, r: Record)
    requires members != [] && |Begun(members)| <= 994
    ensures WithRaw(members, r) != [] && |Begun(WithRaw(members, r))| <= 1005
  {
    hide RenderMembers;
    if r.raw {
      AddsMember(members, RAW, Literal(TRUE));
    }
  }

  lemma MessageFits(members: seq<Member>, r: Record, ending: M.Ending)
    requires members != [] && |Begun(members)| <= 1005
    ensures |Begun(WithMessage(members, r, ending))| + 1 + |M.EndingBytes(ending)| <= CAPACITY
  {
    hide RenderMembers;
    var room := Minus(CAPACITY - 2 - |M.EndingBytes(ending)|, |Begun(members)| + |KeyText(MESSAGE)| + 1);
    AddsMember(members, MESSAGE, Text(Quoted(r.message, room)));
  }

  /** The line: an object and the line ending. */
  function JsonLine(r: Record, ending: M.Ending): seq<byte> {
    Render(Object(LineMembers(r, ending))) + M.EndingBytes(ending)
  }

  /** Each part of the line leaves room for what comes after it. */
  lemma LineFits(r: Record, ending: M.Ending)
    requires IsRecord(r)
    ensures var a, b := Start(r), WithCategory(Start(r), r);
      var c := WithIds(b, r);
      var d := WithFields(c, r);
      && |Begun(a)| <= 101 && b != [] && |Begun(b)| <= 960 && c != [] && |Begun(c)| <= 994
      && d != [] && |Begun(d)| <= 994 && BeforeMessage(r) != [] && |Begun(BeforeMessage(r))| <= 1005
    ensures |JsonLine(r, ending)| <= CAPACITY
  {
    hide Begun, IsRecord, WithCategory, WithIds, WithFields, WithRaw, WithMessage;
    StartFits(r);
    CategoryFits(Start(r), r);
    IdsFit(WithCategory(Start(r), r), r);
    FieldsFit(WithIds(WithCategory(Start(r), r), r), r);
    RawFits(WithFields(WithIds(WithCategory(Start(r), r), r), r), r);
    MessageFits(BeforeMessage(r), r, ending);
    LineIsBegun(r, ending);
  }

  lemma LineIsBegun(r: Record, ending: M.Ending)
    ensures JsonLine(r, ending) == Begun(LineMembers(r, ending)) + [CLOSES] + M.EndingBytes(ending)
  {
  }
}
