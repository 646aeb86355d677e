/** A strict reader of JSON values without white space (RFC 8259), and the texts it reads as a given value. */
module JsonReader {
  import opened Unicode
  import opened Transcoding
  import opened Words
  import opened Json
  import opened JsonPieces
  import opened Sequences

  const COLON: byte := 0x3A
  const COMMA: byte := 0x2C
  const OPENS: byte := 0x7B
  const CLOSES: byte := 0x7D

  datatype JsonValue = Str(text: seq<character>) | Lit(bytes: seq<byte>) | Obj(members: seq<(seq<character>, JsonValue)>)
  datatype ValueRead = NoValue | GotValue(value: JsonValue, rest: seq<byte>)

  // ---- Numbers (section 6) and literal names ------------------------------------

  predicate IsDigit(b: byte) {
    0x30 <= b <= 0x39
  }

  function DigitCount(text: seq<byte>): (count: nat)
    ensures count <= |text|
  {
    if text == [] || !IsDigit(text[0]) then 0 else 1 + DigitCount(text[1..])
  }

  predicate IsExponent(text: seq<byte>) {
    text == [] ||
    ((text[0] == 0x65 || text[0] == 0x45) &&
     var digits := if |text| > 1 && (text[1] == 0x2B || text[1] == 0x2D) then text[2..] else text[1..];
     digits != [] && DigitCount(digits) == |digits|)
  }

  predicate IsFraction(text: seq<byte>) {
    if text != [] && text[0] == 0x2E then
      DigitCount(text[1..]) > 0 && IsExponent(text[1 + DigitCount(text[1..])..])
    else IsExponent(text)
  }

  predicate IsNumber(text: seq<byte>) {
    var unsigned := if text != [] && text[0] == 0x2D then text[1..] else text;
    var count := DigitCount(unsigned);
    count > 0 && (count == 1 || unsigned[0] != 0x30) && IsFraction(unsigned[count..])
  }

  const TRUE: seq<byte> := [0x74, 0x72, 0x75, 0x65]
  const FALSE: seq<byte> := [0x66, 0x61, 0x6C, 0x73, 0x65]
  const NULL: seq<byte> := [0x6E, 0x75, 0x6C, 0x6C]

  predicate IsLiteral(text: seq<byte>) {
    text == TRUE || text == FALSE || text == NULL || IsNumber(text)
  }

  /** Digits, letters, signs and the point. */
  predicate IsLiteralByte(b: byte) {
    IsDigit(b) || 0x61 <= b <= 0x7A || b == 0x45 || b == 0x2B || b == 0x2D || b == 0x2E
  }

  function LiteralLength(text: seq<byte>): (length: nat)
    ensures length <= |text|
  {
    if text == [] || !IsLiteralByte(text[0]) then 0 else 1 + LiteralLength(text[1..])
  }

  // ---- The reader -----------------------------------------------------------------

  function ReadValue(text: seq<byte>): (read: ValueRead)
    ensures read.GotValue? ==> |read.rest| < |text|
    decreases |text|, 0
  {
    if text == [] then NoValue
    else if text[0] == QUOTE then
      var quoted := ReadString(text[1..]);
      if quoted.Bad? then NoValue else GotValue(Str(quoted.value), quoted.rest)
    else if text[0] == OPENS then
      if |text| > 1 && text[1] == CLOSES then GotValue(Obj([]), text[2..]) else ReadMembers(text[1..])
    else
      var n := LiteralLength(text);
      if n > 0 && IsLiteral(text[..n]) then GotValue(Lit(text[..n]), text[n..]) else NoValue
  }

  /** The members of an object from the first on, and its closing brace. */
  function ReadMembers(text: seq<byte>): (read: ValueRead)
    ensures read.GotValue? ==> read.value.Obj? && |read.rest| < |text|
    decreases |text|, 1
  {
    if text == [] || text[0] != QUOTE then NoValue
    else
      var key := ReadString(text[1..]);
      if key.Bad? || key.rest == [] || key.rest[0] != COLON then NoValue
      else
        var first := ReadValue(key.rest[1..]);
        if first.NoValue? || first.rest == [] then NoValue
        else if first.rest[0] == CLOSES then GotValue(Obj([(key.value, first.value)]), first.rest[1..])
        else if first.rest[0] != COMMA then NoValue
        else
          var more := ReadMembers(first.rest[1..]);
          if more.NoValue? then NoValue
          else GotValue(Obj([(key.value, first.value)] + more.value.members), more.rest)
  }

  // ---- What is written ----------------------------------------------------------------

  /** A string of as much of 'text' as fits into 'room' bytes. */
  datatype Quoted = Quoted(text: seq<byte>, room: nat)
  datatype Tree = Text(quoted: Quoted) | Literal(bytes: seq<byte>) | Object(members: seq<Member>)
  datatype Member = Member(key: Quoted, value: Tree)

  function RenderQuoted(q: Quoted): seq<byte> {
    [QUOTE] + EscapedWithin(q.text, q.room) + [QUOTE]
  }

  function Characters(q: Quoted): seq<character> {
    Scalars8(q.text)[..CharactersWithin(q.text, q.room)]
  }

  function Render(t: Tree): (text: seq<byte>)
    decreases t
  {
    match t
    case Text(q) => RenderQuoted(q)
    case Literal(bytes) => bytes
    case Object(members) => [OPENS] + RenderMembers(members) + [CLOSES]
  }

  function RenderMember(m: Member): seq<byte>
    decreases m
  {
    RenderQuoted(m.key) + [COLON] + Render(m.value)
  }

  function RenderMembers(members: seq<Member>): seq<byte>
    decreases members
  {
    if members == [] then []
    else if |members| == 1 then RenderMember(members[0])
    else RenderMember(members[0]) + [COMMA] + RenderMembers(members[1..])
  }

  function Meaning(t: Tree): JsonValue
    decreases t
  {
    match t
    case Text(q) => Str(Characters(q))
    case Literal(bytes) => Lit(bytes)
    case Object(members) => Obj(MeaningOf(members))
  }

  function MeaningOfMember(m: Member): (seq<character>, JsonValue)
    decreases m
  {
    (Characters(m.key), Meaning(m.value))
  }

  function MeaningOf(members: seq<Member>): seq<(seq<character>, JsonValue)>
    decreases members
  {
    if members == [] then [] else [MeaningOfMember(members[0])] + MeaningOf(members[1..])
  }

  predicate LiteralsOk(t: Tree)
    decreases t
  {
    match t
    case Text(_) => true
    case Literal(bytes) => IsLiteral(bytes) && LiteralLength(bytes) == |bytes|
    case Object(members) => forall m :: m in members ==> LiteralsOk(m.value)
  }

  /** Nothing that could go on a literal. */
  predicate Delimits(rest: seq<byte>) {
    rest == [] || !IsLiteralByte(rest[0])
  }

  // ---- The reader takes a rendered tree as its meaning -----------------------------------

  lemma {:induction false} LiteralEnds(literal: seq<byte>, rest: seq<byte>)
    requires LiteralLength(literal) == |literal| && Delimits(rest)
    ensures LiteralLength(literal + rest) == |literal|
  {
    if literal == [] {
      assert literal + rest == rest;
    } else {
      assert (literal + rest)[1..] == literal[1..] + rest;
      LiteralEnds(literal[1..], rest);
    }
  }

  lemma QuotesStart(body: seq<byte>, rest: seq<byte>)
    ensures var text := ([QUOTE] + body + [QUOTE]) + rest; text[0] == QUOTE && text[1..] == body + [QUOTE] + rest
  {
    assert ([QUOTE] + body + [QUOTE]) + rest == [QUOTE] + (body + [QUOTE] + rest);
  }

  lemma ReadsQuoted(q: Quoted, rest: seq<byte>)
    ensures var text := RenderQuoted(q) + rest;
      text != [] && text[0] == QUOTE && ReadString(text[1..]) == Read(Characters(q), rest)
  {
    hide ReadString, EscapedWithin, CharactersWithin, Scalars8;
    ReadsEscapedWithin(q.text, q.room, rest);
    QuotesStart(EscapedWithin(q.text, q.room), rest);
  }

  lemma LiteralStarts(literal: seq<byte>)
    requires IsLiteral(literal)
    ensures literal != [] && literal[0] != QUOTE && literal[0] != OPENS
  {
  }

  lemma {:induction false} ReadsRendered(t: Tree, rest: seq<byte>)
    requires LiteralsOk(t) && Delimits(rest)
    ensures ReadValue(Render(t) + rest) == GotValue(Meaning(t), rest)
    decreases t
  {
    hide ReadString, ReadMembers, RenderMember, Characters, RenderQuoted, IsLiteral;
    match t
    case Text(q) => ReadsQuoted(q, rest);
    case Literal(bytes) =>
      LiteralStarts(bytes);
      LiteralEnds(bytes, rest);
      FrontAndBack(bytes, rest);
    case Object(members) =>
      var text := Render(t) + rest;
      if members == [] {
        assert text == [OPENS, CLOSES] + rest && text[2..] == rest;
      } else {
        assert text[1..] == RenderMembers(members) + [CLOSES] + rest;
        ReadsAllMembers(members, rest);
        MembersStart(members);
        assert text[1] == RenderMembers(members)[0];
      }
  }

  lemma MembersStart(members: seq<Member>)
    requires members != []
    ensures RenderMembers(members) != [] && RenderMembers(members)[0] == QUOTE
  {
    assert RenderMember(members[0])[0] == QUOTE;
  }

  /** A member is read up to the comma or brace after it. */
  lemma {:induction false} ReadsMember(m: Member, after: seq<byte>)
    requires LiteralsOk(m.value) && Delimits(after)
    ensures var text := RenderMember(m) + after;
      text != [] && text[0] == QUOTE &&
      var key := ReadString(text[1..]);
      key.Read? && key.value == Characters(m.key) && key.rest != [] && key.rest[0] == COLON &&
      ReadValue(key.rest[1..]) == GotValue(Meaning(m.value), after)
    decreases m
  {
    hide ReadString, ReadValue, ReadMembers, RenderQuoted, Render, Characters;
    var tail := [COLON] + (Render(m.value) + after);
    assert RenderMember(m) + after == RenderQuoted(m.key) + tail;
    ReadsQuoted(m.key, tail);
    assert tail[1..] == Render(m.value) + after;
    ReadsRendered(m.value, after);
  }

  lemma MembersSplit(first: seq<byte>, more: seq<byte>, rest: seq<byte>)
    ensures (first + [COMMA] + more) + [CLOSES] + rest == first + ([COMMA] + (more + [CLOSES] + rest))
    ensures ([COMMA] + (more + [CLOSES] + rest))[1..] == more + [CLOSES] + rest
  {
  }

  lemma LastSplits(first: seq<byte>, rest: seq<byte>)
    ensures first + [CLOSES] + rest == first + ([CLOSES] + rest) && ([CLOSES] + rest)[1..] == rest
  {
  }

  lemma {:induction false} ReadsAllMembers(members: seq<Member>, rest: seq<byte>)
    requires members != [] && forall m :: m in members ==> LiteralsOk(m.value)
    ensures ReadMembers(RenderMembers(members) + [CLOSES] + rest) == GotValue(Obj(MeaningOf(members)), rest)
    decreases members
  {
    hide RenderMember, ReadString, ReadValue, Render, Characters;
    var m := members[0];
    if |members| == 1 {
      LastSplits(RenderMember(m), rest);
      assert members[1..] == [];
      ReadsMember(m, [CLOSES] + rest);
    } else {
      MembersSplit(RenderMember(m), RenderMembers(members[1..]), rest);
      ReadsMember(m, [COMMA] + (RenderMembers(members[1..]) + [CLOSES] + rest));
      ReadsAllMembers(members[1..], rest);
    }
  }

  /** A member is appended after a comma. */
  lemma {:induction false} RenderSnoc(members: seq<Member>, m: Member)
    ensures RenderMembers(members + [m])
         == if members == [] then RenderMember(m) else RenderMembers(members) + [COMMA] + RenderMember(m)
    decreases |members|
  {
    var all := members + [m];
    if |members| > 0 {
      assert all[1..] == members[1..] + [m];
      RenderSnoc(members[1..], m);
    }
  }
}
