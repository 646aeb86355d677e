/** What the text layout's crash lines say, byte by byte. */
module CrashLineText {
  import opened Unicode
  import opened Words
  import opened Json
  import opened JsonPieces
  import opened JsonReader
  import opened Sequences
  import opened CrashText
  import opened CrashLine
  import opened CrashLineWriter
  import M = Multiline

  // ---- Fields ------------------------------------------------------------------------------

  function QuotedText(t: seq<byte>): seq<byte> {
    Ascii("\"") + t + Ascii("\"")
  }

  /** A field in the text layout, with all of its text. */
  function WholeField(f: Field): (text: seq<byte>)
    ensures text != []
  {
    f.key + Ascii("=") + if f.value.TextValue? then QuotedText(Escaped(f.value.text)) else f.value.plain
  }

  /** Texts with a space between them, and one before them if something else is. */
  function Spaced(hasField: bool, texts: seq<seq<byte>>): seq<byte>
    decreases |texts|
  {
    if texts == [] then [] else (if hasField then Ascii(" ") else []) + texts[0] + Spaced(true, texts[1..])
  }

  function WholeFields(fields: seq<Field>): (texts: seq<seq<byte>>)
    ensures |texts| == |fields| && forall i :: 0 <= i < |fields| ==> texts[i] == WholeField(fields[i])
  {
    if fields == [] then [] else [WholeField(fields[0])] + WholeFields(fields[1..])
  }

  lemma WithinAll(t: seq<byte>, room: nat)
    requires |Escaped(t)| <= room
    ensures EscapedWithin(t, room) == Escaped(t)
  {
    var k := WithinIsMost(t, room);
    UnitIsFirst(t[k..]);
  }

  lemma UnitIsFirst(t: seq<byte>)
    ensures t == [] ==> Escaped(t) == []
    ensures t != [] ==> |EscapedUnit(t)| <= |Escaped(t)|
  {
  }

  /** The field with as much of its text as there is room for. */
  predicate IsFieldText(text: seq<byte>, f: Field, room: nat) {
    text == f.key + Ascii("=") + if f.value.TextValue? then QuotedText(EscapedWithin(f.value.text, room)) else f.value.plain
  }

  lemma FieldBytes()
    ensures Ascii(" ") == [M.SPACE] && Ascii("=") == [EQUALS] && Ascii("\"") == [QUOTE]
  {
    hide Ascii;
  }

  lemma HeadBytes()
    ensures Ascii("[") == [0x5B] && Ascii("][") == BETWEEN && Ascii("][P:") == PROCESS && Ascii("][T:") == THREAD
    ensures Ascii("]: ") == TEXT_FOLLOWS
  {
    hide Ascii;
  }

  /** The room that a text has before its closing quote. */
  function TextRoom(hasField: bool, f: Field, room: nat): nat
    requires room > 0
  {
    Minus(room - 1, |FieldHead(hasField, f)| + 1)
  }

  lemma FieldTextMeans(hasField: bool, f: Field, room: nat) returns (text: seq<byte>)
    requires room > 0
    ensures FieldText(hasField, f, room) == (if hasField then Ascii(" ") else []) + text
    ensures IsFieldText(text, f, TextRoom(hasField, f, room))
    ensures |if hasField then Ascii(" ") else []| + |WholeField(f)| <= room ==> text == WholeField(f)
  {
    hide EscapedWithin, Escaped, Ascii;
    FieldBytes();
    var n := TextRoom(hasField, f, room);
    text := f.key + [EQUALS] + if f.value.TextValue? then [QUOTE] + EscapedWithin(f.value.text, n) + [QUOTE] else f.value.plain;
    if f.value.TextValue? && |Escaped(f.value.text)| <= n { WithinAll(f.value.text, n); }
    if hasField {
      Associates([M.SPACE], f.key + [EQUALS], text[|f.key| + 1..]);
    }
  }

  /** 'texts' are those of some of the fields, in their order. */
  ghost predicate AreSome(texts: seq<seq<byte>>, fields: seq<Field>)
    decreases |fields|
  {
    texts == [] || (fields != [] &&
      (((exists room :: IsFieldText(texts[0], fields[0], room)) && AreSome(texts[1..], fields[1..])) ||
       AreSome(texts, fields[1..])))
  }

  lemma PartMeans(size: nat, hasField: bool, f: Field) returns (text: seq<byte>)
    ensures var part, space := FieldPart(size, hasField, f, false), if hasField then Ascii(" ") else [];
      && (part != [] ==> part == space + text && exists room :: IsFieldText(text, f, room))
      && (size + |space + WholeField(f)| + 96 <= 1024 ==> part != [] && text == WholeField(f))
  {
    hide FieldText, IsFieldText, WholeField, Ascii;
    text := [];
    if size + 96 < 1024 {
      text := FieldTextMeans(hasField, f, 1024 - (size + 96));
    }
  }

  lemma SpacedBegins(hasField: bool, texts: seq<seq<byte>>)
    requires texts != []
    ensures Spaced(hasField, texts) == (if hasField then Ascii(" ") else []) + texts[0] + Spaced(true, texts[1..])
  {
  }

  lemma SomeMore(texts: seq<seq<byte>>, text: seq<byte>, fields: seq<Field>)
    requires fields != [] && AreSome(texts, fields[1..])
    ensures AreSome(texts, fields)
    ensures (exists room :: IsFieldText(text, fields[0], room)) ==> AreSome([text] + texts, fields)
  {
    hide IsFieldText;
    assert ([text] + texts)[1..] == texts && ([text] + texts)[0] == text;
  }

  /** The fields stand in the line with a space between them: some of them in their order, each with its key and its value
      or what fits of its text. */
  lemma {:induction false} SomeFieldsHold(base: nat, written: seq<byte>, fields: seq<Field>) returns (texts: seq<seq<byte>>)
    ensures FieldsPart(base, written, fields, false) == written + Spaced(written != [], texts) && AreSome(texts, fields)
    decreases |fields|
  {
    if fields == [] {
      texts := [];
      assert written + [] == written;
    } else {
      hide FieldPart, IsFieldText, WholeField, Ascii, Spaced, AreSome;
      var size, hasField := base + |written|, written != [];
      var part := FieldPart(size, hasField, fields[0], false);
      var text := PartMeans(size, hasField, fields[0]);
      texts := SomeFieldsHold(base, written + part, fields[1..]);
      SomeMore(texts, text, fields);
      if part == [] {
        assert written + part == written;
      } else {
        var space := if hasField then Ascii(" ") else [];
        SpacedBegins(hasField, [text] + texts);
        assert ([text] + texts)[1..] == texts && written + part != [];
        Associates(written, space + text, Spaced(true, texts));
        texts := [text] + texts;
      }
    }
  }

  /** All of them are written in full if that leaves the reserve free. */
  lemma {:induction false} AllFieldsHold(base: nat, written: seq<byte>, fields: seq<Field>)
    requires base + |written + Spaced(written != [], WholeFields(fields))| + 96 <= 1024
    ensures FieldsPart(base, written, fields, false) == written + Spaced(written != [], WholeFields(fields))
    decreases |fields|
  {
    if fields == [] {
      assert written + [] == written;
    } else {
      hide FieldPart, IsFieldText, WholeField, Ascii, Spaced;
      var size, hasField := base + |written|, written != [];
      var space, more := if hasField then Ascii(" ") else [], Spaced(true, WholeFields(fields)[1..]);
      SpacedBegins(hasField, WholeFields(fields));
      var _ := PartMeans(size, hasField, fields[0]);
      Associates(written, space + WholeField(fields[0]), more);
      AllFieldsHold(base, written + (space + WholeField(fields[0])), fields[1..]);
    }
  }

  lemma {:induction false} WholeAreSome(fields: seq<Field>)
    ensures AreSome(WholeFields(fields), fields)
    decreases |fields|
  {
    hide Escaped, EscapedWithin;
    if fields != [] {
      WholeAreSome(fields[1..]);
      if fields[0].value.TextValue? {
        WithinAll(fields[0].value.text, |Escaped(fields[0].value.text)|);
      }
      assert IsFieldText(WholeField(fields[0]), fields[0],
                         if fields[0].value.TextValue? then |Escaped(fields[0].value.text)| else 0);
    }
  }

  // ---- The line ------------------------------------------------------------------------------

  /** The time, the level, the category and the ids. */
  function Head(r: Record): seq<byte> {
    Ascii("[") + r.time + Ascii("][") + r.level
    + ((if r.category == [] then [] else Ascii("][") + r.category)
       + (Ascii("][P:") + Digits(r.processId) + (Ascii("][T:") + Digits(r.threadId))))
  }

  function Fields(texts: seq<seq<byte>>): seq<byte> {
    if texts == [] then [] else Ascii("][") + Spaced(false, texts)
  }

  lemma HeadIsStart(r: Record)
    requires IsRecord(r) && |Head(r)| <= 1024
    ensures Appended([0x5B] + r.time + BETWEEN + r.level, Ids(r)) == Head(r)
  {
    hide Ascii, Digits;
    HeadBytes();
  }

  lemma {:induction false} SomeIsWritten(texts: seq<seq<byte>>, fields: seq<Field>)
    requires texts != [] && AreSome(texts, fields)
    ensures Spaced(false, texts) != []
    decreases |fields|
  {
    if room :| IsFieldText(texts[0], fields[0], room) {
      assert texts[0] != [];
    } else {
      SomeIsWritten(texts, fields[1..]);
    }
  }

  lemma NoneAreSome(fields: seq<Field>)
    ensures AreSome([], fields)
  {
  }

  lemma NothingSpaced()
    ensures Spaced(false, []) == []
  {
  }

  lemma FieldsFollow(c: seq<byte>, r: Record) returns (texts: seq<seq<byte>>)
    requires |c| + 2 <= 1024
    ensures WithTextFields(c, r) == c + Fields(texts) && AreSome(texts, r.fields)
    ensures r.hasFields && |c + Fields(WholeFields(r.fields))| + 96 <= 1024 ==> texts == WholeFields(r.fields)
    ensures !r.hasFields ==> texts == []
  {
    hide FieldsPart, AreSome, WholeField, WholeFields, Ascii, Spaced;
    HeadBytes();
    NoneAreSome(r.fields);
    texts := [];
    if r.hasFields && r.fields != [] {
      AppendedWhole(c, BETWEEN);
      var begun, whole := c + BETWEEN, WholeFields(r.fields);
      assert whole != [];
      Associates(c, BETWEEN, Spaced(false, whole));
      if |c + Fields(whole)| + 96 <= 1024 {
        assert |begun| + |[] + Spaced(false, whole)| + 96 <= 1024;
        AllFieldsHold(|begun|, [], r.fields);
        WholeAreSome(r.fields);
        texts := whole;
      } else {
        texts := SomeFieldsHold(|begun|, [], r.fields);
      }
      var part := FieldsPart(|begun|, [], r.fields, false);
      assert part == Spaced(false, texts);
      if texts == [] {
        NothingSpaced();
      } else {
        SomeIsWritten(texts, r.fields);
        Associates(c, BETWEEN, part);
      }
    } else if r.hasFields {
      NoFields(|Appended(c, BETWEEN)|);
    }
  }

  lemma NoFields(base: nat)
    ensures FieldsPart(base, [], [], false) == [] && WholeFields([]) == []
  {
  }

  /** The line in full: what a record's line is if it fits. */
  function WholeLine(r: Record, mode: M.Mode, ending: M.Ending): seq<byte> {
    Head(r) + (if r.hasFields then Fields(WholeFields(r.fields)) else []) + Ascii("]: ")
    + M.Rewritten(r.message, mode, ending) + M.EndingBytes(ending)
  }

  lemma MessageFits(message: seq<byte>, mode: M.Mode, ending: M.Ending, room: nat)
    requires |M.Rewritten(message, mode, ending)| <= room
    ensures M.RewrittenWithin(message, mode, ending, room) == M.Rewritten(message, mode, ending)
  {
    var k := M.WithinIsPrefix(message, mode, ending, room);
    MessageGoesOn(message[k..], mode, ending);
  }

  lemma MessageGoesOn(message: seq<byte>, mode: M.Mode, ending: M.Ending)
    ensures message == [] ==> M.Rewritten(message, mode, ending) == []
    ensures message != [] ==> |M.NextUnit(message, mode, ending)| <= |M.Rewritten(message, mode, ending)|
  {
  }

  /** A line that fits, with the reserve after its fields, is written in full. */
  lemma LineIsWhole(r: Record, mode: M.Mode, ending: M.Ending)
    requires IsRecord(r) && |WholeLine(r, mode, ending)| <= 1024
    requires r.hasFields ==> |Head(r) + Fields(WholeFields(r.fields))| + 96 <= 1024
    ensures TextLine(TextHead(r), r, mode, ending) == WholeLine(r, mode, ending)
  {
    hide Ascii, Head, Fields, AreSome, WithTextFields, Ids, M.Rewritten, M.RewrittenWithin, Appended;
    HeadBytes();
    HeadIsStart(r);
    var texts := FieldsFollow(Head(r), r);
    NoTexts();
    var head := WithTextFields(Head(r), r);
    assert head == Head(r) + (if r.hasFields then Fields(WholeFields(r.fields)) else []);
    AppendedWhole(head, TEXT_FOLLOWS);
    MessageFits(r.message, mode, ending, 1024 - |M.EndingBytes(ending)| - |head + TEXT_FOLLOWS|);
  }

  lemma NoTexts()
    ensures Fields([]) == []
  {
  }

  lemma HeadBegins(r: Record)
    requires IsRecord(r)
    ensures Ascii("[") + r.time + Ascii("][") + r.level + Ascii("]") <= TextHead(r)
  {
    hide Ascii, FieldsPart, Ids;
    HeadBytes();
    Closing();
    IdsBegin(r);
    var start := [0x5B] + r.time + BETWEEN + r.level;
    var whole := Appended(start, Ids(r));
    assert start + [0x5D] <= whole;
    assert whole <= WithTextFields(whole, r) <= TextHead(r);
  }

  /** Any line begins with the time and the level, and ends with the line ending, within 1024 bytes. */
  lemma LineBeginsAndEnds(r: Record, mode: M.Mode, ending: M.Ending)
    requires IsRecord(r)
    ensures var line := TextLine(TextHead(r), r, mode, ending);
      && |line| <= 1024 && Ascii("[") + r.time + Ascii("][") + r.level + Ascii("]") <= line
      && |line| >= |M.EndingBytes(ending)| && line[|line| - |M.EndingBytes(ending)|..] == M.EndingBytes(ending)
  {
    HeadBegins(r);
    Closing();
    HeadBytes();
    hide Ascii, TextHead;
  }

  lemma Closing()
    ensures Ascii("]") == [0x5D]
  {
  }

  lemma IdsBegin(r: Record)
    ensures |Ids(r)| > 0 && Ids(r)[0] == 0x5D
  {
    hide Digits;
  }
}
