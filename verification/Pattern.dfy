/** Line patterns: what a pattern means, and a printer the parser undoes. */
module Pattern {
  import opened Decimals
  import opened Sequences

  datatype Field = Text | Time | Level | Category | ProcessId | ThreadId | WorkingSet | PeakWorkingSet
                 | Function | File | Line | Fields | Message

  /** Literal text, in 'prefix', or a placeholder's field with its affixes and minimum width (0: none). */
  datatype Part = Part(field: Field, width: nat, prefix: string, suffix: string)

  datatype Problem = UnmatchedBrace | UnclosedBrace | UnclosedQuote | SecondName | UnknownName(name: string) | BadWidth
                   | NeedsQuotes(c: char) | MissingName

  datatype Parsed = Failed(problem: Problem, index: nat) | Ok(parts: seq<Part>)
  datatype ParsedPart = FailedPart(problem: Problem, index: nat) | OkPart(part: Part, rest: string)

  const MAX_WIDTH: nat := 1000

  predicate IsLetter(c: char) {
    'a' <= c <= 'z' || 'A' <= c <= 'Z'
  }

  function NameOf(field: Field): string {
    match field
    case Text => ""
    case Time => "time"
    case Level => "level"
    case Category => "category"
    case ProcessId => "pid"
    case ThreadId => "tid"
    case WorkingSet => "ws"
    case PeakWorkingSet => "pws"
    case Function => "function"
    case File => "file"
    case Line => "line"
    case Fields => "fields"
    case Message => "message"
  }

  /** The names, in the order they are searched. */
  const NAMED: seq<Field> :=
    [Time, Level, Category, ProcessId, ThreadId, WorkingSet, PeakWorkingSet, Function, File, Line, Fields, Message]

  /** The field of a name, or Text if there is none. */
  function FieldOf(name: string): Field {
    FindField(name, 0)
  }

  function FindField(name: string, i: nat): Field
    requires i <= |NAMED|
    decreases |NAMED| - i
  {
    if i == |NAMED| then Text else if NameOf(NAMED[i]) == name then NAMED[i] else FindField(name, i + 1)
  }

  // ---- What a pattern means ----------------------------------------------------

  /** A placeholder up to some place inside its braces. */
  datatype Inside = Inside(part: Part, hasName: bool, isAfterQuote: bool, unquotedSpaces: nat)

  const ENTERED: Inside := Inside(Part(Text, 0, "", ""), false, false, 0)

  function Affix(st: Inside): string {
    if st.hasName then st.part.suffix else st.part.prefix
  }

  function WithAffix(st: Inside, affix: string): Inside {
    st.(part := if st.hasName then st.part.(suffix := affix) else st.part.(prefix := affix))
  }

  /** The unquoted spaces counted are the end of the affix. */
  predicate InsideOk(st: Inside) {
    st.unquotedSpaces <= |Affix(st)| &&
    forall i :: |Affix(st)| - st.unquotedSpaces <= i < |Affix(st)| ==> Affix(st)[i] == ' '
  }

  datatype Quote = Unclosed | Closed(text: string, rest: string)

  /** Quoted text after its opening quote; two quotes stand for one. */
  function ReadQuoted(s: string): (quote: Quote)
    ensures quote.Closed? ==> |quote.rest| < |s|
  {
    if s == "" then Unclosed
    else if s[0] == '\'' then
      if |s| > 1 && s[1] == '\'' then
        var more := ReadQuoted(s[2..]);
        if more.Unclosed? then Unclosed else Closed("'" + more.text, more.rest)
      else Closed("", s[1..])
    else
      var more := ReadQuoted(s[1..]);
      if more.Unclosed? then Unclosed else Closed([s[0]] + more.text, more.rest)
  }

  function LetterCount(s: string): (count: nat)
    ensures count <= |s|
    ensures s != "" && IsLetter(s[0]) ==> count > 0
  {
    if s == "" || !IsLetter(s[0]) then 0 else 1 + LetterCount(s[1..])
  }

  function DigitValue(c: char): nat
    requires IsDigit(c)
  {
    c as nat - '0' as nat
  }

  /** A width, read no further than beyond the limit, and how many digits that took. */
  function ReadWidth(s: string, width: nat): (r: (nat, nat))
    ensures r.1 <= |s|
  {
    if s == "" || !IsDigit(s[0]) || width > MAX_WIDTH then (width, 0)
    else
      var (value, count) := ReadWidth(s[1..], width * 10 + DigitValue(s[0]));
      (value, count + 1)
  }

  /** After quoted text: unquoted spaces before it separate, so they are dropped. */
  function AfterQuote(st: Inside, text: string): (r: Inside)
    requires InsideOk(st)
    ensures InsideOk(r)
  {
    WithAffix(st, Affix(st)[..|Affix(st)| - st.unquotedSpaces] + text).(isAfterQuote := true, unquotedSpaces := 0)
  }

  function AfterCharacter(st: Inside, c: char): (r: Inside)
    requires InsideOk(st)
    ensures InsideOk(r)
  {
    WithAffix(st, Affix(st) + [c]).(isAfterQuote := false, unquotedSpaces := if c == ' ' then st.unquotedSpaces + 1 else 0)
  }

  function AfterName(st: Inside, field: Field, width: nat): (r: Inside)
    requires !st.hasName
    ensures st.part.suffix == "" ==> InsideOk(r)
  {
    Inside(st.part.(field := field, width := width), true, false, 0)
  }

  /** The rest of the placeholder whose brace is at 'start' of a pattern of 'size' characters. */
  function ParseInside(s: string, size: nat, start: nat, st: Inside): (r: ParsedPart)
    requires InsideOk(st) && |s| <= size
    ensures r.OkPart? ==> |r.rest| < |s|
    decreases |s|
  {
    if s == "" then FailedPart(UnclosedBrace, start)
    else if s[0] == '}' then
      if st.hasName then OkPart(st.part, s[1..]) else FailedPart(MissingName, start)
    else if s[0] == '\'' then
      var quote := ReadQuoted(s[1..]);
      if quote.Unclosed? then FailedPart(UnclosedQuote, size - |s|)
      else ParseInside(quote.rest, size, start, AfterQuote(st, quote.text))
    else if s[0] == ' ' && st.isAfterQuote then ParseInside(s[1..], size, start, st)
    else if IsLetter(s[0]) then
      if st.hasName then FailedPart(SecondName, size - |s|)
      else
        var n := LetterCount(s);
        var field := FieldOf(s[..n]);
        if field == Text then FailedPart(UnknownName(s[..n]), size - |s|)
        else if n < |s| && s[n] == ':' then
          var (width, count) := ReadWidth(s[n + 1..], 0);
          if count == 0 || width == 0 || width > MAX_WIDTH then FailedPart(BadWidth, size - |s| + n + 1)
          else ParseInside(s[n + 1 + count..], size, start, AfterName(st.(part := st.part.(suffix := "")), field, width))
        else ParseInside(s[n..], size, start, AfterName(st.(part := st.part.(suffix := "")), field, 0))
    else if IsDigit(s[0]) || s[0] == ':' || s[0] == '{' then FailedPart(NeedsQuotes(s[0]), size - |s|)
    else ParseInside(s[1..], size, start, AfterCharacter(st, s[0]))
  }

  function Flushed(text: string): seq<Part> {
    if text == "" then [] else [Part(Text, 0, text, "")]
  }

  /** The rest of a pattern of 'size' characters, after literal text 'text'. */
  function ParseText(s: string, size: nat, text: string): (r: Parsed)
    requires |s| <= size
    decreases |s|
  {
    if s == "" then Ok(Flushed(text))
    else if (s[0] == '{' || s[0] == '}') && |s| > 1 && s[1] == s[0] then ParseText(s[2..], size, text + [s[0]])
    else if s[0] == '{' then
      var placeholder := ParseInside(s[1..], size, size - |s|, ENTERED);
      if placeholder.FailedPart? then Failed(placeholder.problem, placeholder.index)
      else
        var more := ParseText(placeholder.rest, size, "");
        if more.Failed? then more else Ok(Flushed(text) + [placeholder.part] + more.parts)
    else if s[0] == '}' then Failed(UnmatchedBrace, size - |s|)
    else ParseText(s[1..], size, text + [s[0]])
  }

  function Parse(pattern: string): Parsed {
    ParseText(pattern, |pattern|, "")
  }

  // ---- A canonical printer ---------------------------------------------------------

  /** 'text' with each brace, or each quote, doubled. */
  function Doubled(text: string, isBrace: bool): string {
    if text == "" then ""
    else
      var isDoubled := if isBrace then text[0] == '{' || text[0] == '}' else text[0] == '\'';
      (if isDoubled then [text[0], text[0]] else [text[0]]) + Doubled(text[1..], isBrace)
  }

  function PrintAffix(affix: string): string {
    if affix == "" then "" else "'" + Doubled(affix, false) + "'"
  }

  function PrintWidth(width: nat): string {
    if width == 0 then "" else ":" + Decimal(width)
  }

  function PrintPart(part: Part): string {
    if part.field == Text then Doubled(part.prefix, true)
    else "{" + (PrintAffix(part.prefix) + (NameOf(part.field) + (PrintWidth(part.width) + (PrintAffix(part.suffix) + "}"))))
  }

  function Print(parts: seq<Part>): string {
    if parts == [] then "" else PrintPart(parts[0]) + Print(parts[1..])
  }

  predicate IsPart(part: Part) {
    if part.field == Text then part.prefix != "" && part.width == 0 && part.suffix == "" else part.width <= MAX_WIDTH
  }

  /** No empty or adjacent literal texts, and no width above the limit. */
  predicate Canonical(parts: seq<Part>) {
    (forall i :: 0 <= i < |parts| ==> IsPart(parts[i])) &&
    (forall i :: 0 < i < |parts| ==> parts[i - 1].field != Text || parts[i].field != Text)
  }

  // ---- The parser undoes the printer ---------------------------------------------------

  lemma {:induction false} QuotedReads(affix: string, rest: string)
    requires rest == "" || rest[0] != '\''
    ensures ReadQuoted(Doubled(affix, false) + "'" + rest) == Closed(affix, rest)
  {
    hide ReadQuoted;
    if affix == "" {
      QuoteCloses(rest);
    } else {
      var doubled := Doubled(affix[1..], false);
      QuotedReads(affix[1..], rest);
      QuotedCharacter(affix[0], doubled, rest, affix[1..]);
      assert [affix[0]] + affix[1..] == affix;
    }
  }

  lemma QuoteCloses(rest: string)
    requires rest == "" || rest[0] != '\''
    ensures ReadQuoted("" + "'" + rest) == Closed("", rest)
  {
    assert "" + "'" + rest == "'" + rest && ("'" + rest)[1..] == rest;
  }

  lemma QuotedCharacter(c: char, doubled: string, rest: string, text: string)
    requires ReadQuoted(doubled + "'" + rest) == Closed(text, rest)
    ensures var first := if c == '\'' then [c, c] else [c];
      ReadQuoted((first + doubled) + "'" + rest) == Closed([c] + text, rest)
  {
    var first := if c == '\'' then [c, c] else [c];
    var s, more := (first + doubled) + "'" + rest, doubled + "'" + rest;
    assert s == first + more;
    assert s[|first|..] == more;
  }

  lemma NameIsFound(field: Field)
    requires field != Text
    ensures FieldOf(NameOf(field)) == field
    ensures NameOf(field) != "" && forall i :: 0 <= i < |NameOf(field)| ==> IsLetter(NameOf(field)[i])
  {
    var i := match field
      case Time => 0 case Level => 1 case Category => 2 case ProcessId => 3 case ThreadId => 4 case WorkingSet => 5
      case PeakWorkingSet => 6 case Function => 7 case File => 8 case Line => 9 case Fields => 10 case _ => 11;
    assert NAMED[i] == field;
    NamesAreLetters(field);
    FoundAt(NameOf(field), 0, i);
  }

  /** The twelve names. */
  lemma NamesMean()
    ensures FieldOf("time") == Time && FieldOf("level") == Level && FieldOf("category") == Category
    ensures FieldOf("pid") == ProcessId && FieldOf("tid") == ThreadId && FieldOf("ws") == WorkingSet
    ensures FieldOf("pws") == PeakWorkingSet && FieldOf("function") == Function && FieldOf("file") == File
    ensures FieldOf("line") == Line && FieldOf("fields") == Fields && FieldOf("message") == Message
  {
    forall field: Field | field != Text { NameIsFound(field); }
    assert NameOf(Time) == "time" && NameOf(Level) == "level" && NameOf(Category) == "category" && NameOf(ProcessId) == "pid";
    assert NameOf(ThreadId) == "tid" && NameOf(WorkingSet) == "ws" && NameOf(PeakWorkingSet) == "pws" && NameOf(File) == "file";
    assert NameOf(Function) == "function" && NameOf(Line) == "line" && NameOf(Fields) == "fields" && NameOf(Message) == "message";
  }

  lemma NamesAreLetters(field: Field)
    ensures forall i :: 0 <= i < |NameOf(field)| ==> IsLetter(NameOf(field)[i])
  {
  }

  lemma {:induction false} FoundAt(name: string, i: nat, k: nat)
    requires i <= k < |NAMED| && NameOf(NAMED[k]) == name
    requires forall j :: i <= j < k ==> NameOf(NAMED[j]) != name
    ensures FindField(name, i) == NAMED[k]
    decreases k - i
  {
    if i < k {
      FoundAt(name, i + 1, k);
    }
  }

  lemma {:induction false} LettersEnd(name: string, rest: string)
    requires forall i :: 0 <= i < |name| ==> IsLetter(name[i])
    requires rest == "" || !IsLetter(rest[0])
    ensures LetterCount(name + rest) == |name|
  {
    if name == "" {
      assert name + rest == rest;
    } else {
      assert (name + rest)[1..] == name[1..] + rest;
      LettersEnd(name[1..], rest);
    }
  }

  lemma {:induction false} DecimalReads(n: nat, rest: string)
    requires n <= 10 * MAX_WIDTH + 9
    ensures ReadWidth(Decimal(n) + rest, 0) == (ReadWidth(rest, n).0, |Decimal(n)| + ReadWidth(rest, n).1)
    decreases n
  {
    var digit := ['0' + (n % 10) as char];
    assert (digit + rest)[1..] == rest && DigitValue(digit[0]) == n % 10;
    if n >= 10 {
      DecimalReads(n / 10, digit + rest);
      assert Decimal(n) + rest == Decimal(n / 10) + (digit + rest);
    }
  }

  // One step of the parser each

  lemma QuoteStep(s: string, size: nat, start: nat, st: Inside, text: string, rest: string)
    requires InsideOk(st) && s != "" && s[0] == '\'' && |s| <= size && ReadQuoted(s[1..]) == Closed(text, rest)
    ensures |rest| < |s| && ParseInside(s, size, start, st) == ParseInside(rest, size, start, AfterQuote(st, text))
  {
    hide AfterQuote, AfterName, AfterCharacter, ReadWidth, FieldOf;
  }

  lemma CloseStep(rest: string, size: nat, start: nat, st: Inside)
    requires InsideOk(st) && st.hasName && |rest| < size
    ensures ParseInside("}" + rest, size, start, st) == OkPart(st.part, rest)
  {
    assert ("}" + rest)[1..] == rest;
  }

  lemma NameStep(name: string, rest: string, size: nat, start: nat, st: Inside)
    requires InsideOk(st) && !st.hasName && name != "" && |name + rest| <= size && FieldOf(name) != Text
    requires forall i :: 0 <= i < |name| ==> IsLetter(name[i])
    requires rest != "" && rest[0] != ':' && !IsLetter(rest[0])
    ensures ParseInside(name + rest, size, start, st)
         == ParseInside(rest, size, start, AfterName(st.(part := st.part.(suffix := "")), FieldOf(name), 0))
  {
    hide FieldOf, AfterName, AfterCharacter, AfterQuote, ReadWidth, ReadQuoted;
    var s := name + rest;
    LettersEnd(name, rest);
    assert s[0] == name[0] && s[|name|..] == rest && s[..|name|] == name && s[|name|] == rest[0];
  }

  lemma WidthStep(name: string, width: nat, digits: string, rest: string, size: nat, start: nat, st: Inside)
    requires InsideOk(st) && !st.hasName && name != "" && |name + ":" + digits + rest| <= size && FieldOf(name) != Text
    requires forall i :: 0 <= i < |name| ==> IsLetter(name[i])
    requires digits != "" && 0 < width <= MAX_WIDTH && ReadWidth(digits + rest, 0) == (width, |digits|)
    ensures ParseInside(name + ":" + digits + rest, size, start, st)
         == ParseInside(rest, size, start, AfterName(st.(part := st.part.(suffix := "")), FieldOf(name), width))
  {
    hide FieldOf, AfterName, AfterCharacter, AfterQuote, ReadWidth, ReadQuoted;
    var s := name + ":" + digits + rest;
    var tail := s[|name|..];
    WidthSlices(name, digits, rest);
    LettersEnd(name, tail);
  }

  /** The step over a name. */
  lemma LetterStep(s: string, size: nat, start: nat, st: Inside)
    requires InsideOk(st) && |s| <= size && s != "" && IsLetter(s[0])
    ensures ParseInside(s, size, start, st) ==
      if st.hasName then FailedPart(SecondName, size - |s|)
      else
        var n, clean := LetterCount(s), st.(part := st.part.(suffix := ""));
        var field := FieldOf(s[..n]);
        if field == Text then FailedPart(UnknownName(s[..n]), size - |s|)
        else if n < |s| && s[n] == ':' then
          var (width, count) := ReadWidth(s[n + 1..], 0);
          if count == 0 || width == 0 || width > MAX_WIDTH then FailedPart(BadWidth, size - |s| + n + 1)
          else ParseInside(s[n + 1 + count..], size, start, AfterName(clean, field, width))
        else ParseInside(s[n..], size, start, AfterName(clean, field, 0))
  {
    hide FieldOf, ReadQuoted, ReadWidth, AfterQuote, AfterCharacter, InsideOk;
  }

  lemma WidthSlices(name: string, digits: string, rest: string)
    requires name != ""
    ensures var s := name + ":" + digits + rest;
      && s[0] == name[0] && s[..|name|] == name && s == name + s[|name|..] && s[|name|] == s[|name|..][0] == ':'
      && s[|name| + 1..] == digits + rest && s[|name| + 1 + |digits|..] == rest
  {
  }

  // The parts of a printed placeholder

  lemma AffixParses(affix: string, rest: string, size: nat, start: nat, st: Inside)
    requires InsideOk(st) && st.unquotedSpaces == 0 && Affix(st) == "" && (rest == "" || rest[0] != '\'')
    requires |PrintAffix(affix) + rest| <= size
    ensures var after := if affix == "" then st else WithAffix(st, affix).(isAfterQuote := true);
      InsideOk(after) && ParseInside(PrintAffix(affix) + rest, size, start, st) == ParseInside(rest, size, start, after)
  {
    hide ParseInside, Doubled, ReadQuoted;
    if affix == "" {
      assert PrintAffix(affix) + rest == rest;
    } else {
      var s, inner := PrintAffix(affix) + rest, Doubled(affix, false) + "'" + rest;
      assert s == "'" + inner;
      assert s[1..] == inner;
      QuotedReads(affix, rest);
      QuoteStep(s, size, start, st, affix, rest);
      assert AfterQuote(st, affix) == WithAffix(st, affix).(isAfterQuote := true);
    }
  }

  lemma NameParses(field: Field, width: nat, rest: string, size: nat, start: nat, st: Inside)
    requires InsideOk(st) && !st.hasName && field != Text && width <= MAX_WIDTH
    requires rest != "" && (rest[0] == '\'' || rest[0] == '}')
    requires |NameOf(field) + (PrintWidth(width) + rest)| <= size
    ensures var after := AfterName(st.(part := st.part.(suffix := "")), field, width);
      ParseInside(NameOf(field) + (PrintWidth(width) + rest), size, start, st) == ParseInside(rest, size, start, after)
  {
    hide ParseInside, NameOf, FieldOf, ReadWidth, Decimal, InsideOk, AfterName;
    var name, tail := NameOf(field), PrintWidth(width) + rest;
    NameIsFound(field);
    if width == 0 {
      assert tail == rest;
      NameStep(name, rest, size, start, st);
    } else {
      var digits := Decimal(width);
      DecimalReads(width, rest);
      StopsReading(rest, width);
      WidthJoins(name, digits, rest);
      WidthStep(name, width, digits, rest, size, start, st);
    }
  }

  lemma StopsReading(rest: string, width: nat)
    requires rest != "" && !IsDigit(rest[0])
    ensures ReadWidth(rest, width) == (width, 0)
  {
  }

  lemma WidthJoins(name: string, digits: string, rest: string)
    ensures name + ((":" + digits) + rest) == name + ":" + digits + rest
  {
  }

  /** A printed placeholder parses to its part, up to the brace that closes it. */
  lemma PlaceholderParses(part: Part, rest: string, size: nat, start: nat)
    requires part.field != Text && IsPart(part) && |PrintPart(part) + rest| <= size
    ensures |PrintPart(part) + rest| > 1 && (PrintPart(part) + rest)[0] == '{' && (PrintPart(part) + rest)[1] != '{'
    ensures ParseInside((PrintPart(part) + rest)[1..], size, start, ENTERED) == OkPart(part, rest)
  {
    hide ParseInside, NameOf, PrintWidth, PrintAffix;
    var closing := "}" + rest;
    var third := PrintAffix(part.suffix) + closing;
    var second := NameOf(part.field) + (PrintWidth(part.width) + third);
    var first := PrintAffix(part.prefix) + second;
    PlaceholderInParts(part, rest);
    NameIsFound(part.field);
    AffixStarts(part.prefix, second);
    AffixStarts(part.suffix, closing);
    AffixParses(part.prefix, second, size, start, ENTERED);
    var st := if part.prefix == "" then ENTERED else WithAffix(ENTERED, part.prefix).(isAfterQuote := true);
    NameParses(part.field, part.width, third, size, start, st);
    var named := AfterName(st.(part := st.part.(suffix := "")), part.field, part.width);
    AffixParses(part.suffix, closing, size, start, named);
    CloseStep(rest, size, start, if part.suffix == "" then named else WithAffix(named, part.suffix).(isAfterQuote := true));
  }

  lemma AffixStarts(affix: string, rest: string)
    requires rest != ""
    ensures PrintAffix(affix) + rest != ""
    ensures (PrintAffix(affix) + rest)[0] == if affix == "" then rest[0] else '\''
  {
  }

  lemma PlaceholderInParts(part: Part, rest: string)
    requires part.field != Text
    ensures PrintPart(part) + rest
         == "{" + (PrintAffix(part.prefix) + (NameOf(part.field) + (PrintWidth(part.width) + (PrintAffix(part.suffix) + ("}" + rest)))))
  {
    hide NameOf, PrintWidth, PrintAffix;
  }

  lemma DoubledStep(c: char, more: string, size: nat, before: string)
    requires (c == '{' || c == '}') && |more| + 2 <= size
    ensures ParseText([c, c] + more, size, before) == ParseText(more, size, before + [c])
  {
    hide ParseInside;
    assert ([c, c] + more)[2..] == more;
  }

  lemma PlainTextStep(c: char, more: string, size: nat, before: string)
    requires c != '{' && c != '}' && |more| + 1 <= size
    ensures ParseText([c] + more, size, before) == ParseText(more, size, before + [c])
  {
    hide ParseInside;
    assert ([c] + more)[1..] == more;
  }

  lemma {:induction false} TextParses(text: string, before: string, rest: string, size: nat)
    requires |Doubled(text, true) + rest| <= size
    requires rest == "" || (rest[0] == '{' && |rest| > 1 && rest[1] != '{')
    ensures ParseText(Doubled(text, true) + rest, size, before) == ParseText(rest, size, before + text)
    decreases |text|
  {
    hide ParseText;
    if text == "" {
      assert "" + rest == rest && before + text == before;
    } else {
      var c, doubled := text[0], Doubled(text[1..], true);
      assert [c] + text[1..] == text;
      Associates(before, [c], text[1..]);
      if c == '{' || c == '}' {
        Associates([c, c], doubled, rest);
        DoubledStep(c, doubled + rest, size, before);
      } else {
        Associates([c], doubled, rest);
        PlainTextStep(c, doubled + rest, size, before);
      }
      TextParses(text[1..], before + [c], rest, size);
    }
  }

  lemma TextComesFirst(part: Part, more: string, size: nat)
    requires IsPart(part) && part.field == Text && |PrintPart(part) + more| <= size
    requires more == "" || (more[0] == '{' && |more| > 1 && more[1] != '{')
    ensures ParseText(PrintPart(part) + more, size, "") == ParseText(more, size, part.prefix)
    ensures Flushed(part.prefix) == [part]
  {
    TextParses(part.prefix, "", more, size);
    assert "" + part.prefix == part.prefix;
  }

  lemma BraceStep(s: string, size: nat, text: string, part: Part, rest: string)
    requires |s| <= size && |s| > 1 && s[0] == '{' && s[1] != '{'
    requires ParseInside(s[1..], size, size - |s|, ENTERED) == OkPart(part, rest)
    ensures |rest| < |s|
    ensures ParseText(s, size, text)
         == var more := ParseText(rest, size, ""); if more.Failed? then more else Ok(Flushed(text) + [part] + more.parts)
  {
    hide ParseInside;
  }

  /** Printing starts with a placeholder where the first part is one. */
  lemma PrintStarts(parts: seq<Part>)
    requires Canonical(parts) && (parts == [] || parts[0].field != Text)
    ensures Print(parts) == "" || (Print(parts)[0] == '{' && |Print(parts)| > 1 && Print(parts)[1] != '{')
  {
    hide PrintPart, ParseInside;
    if parts != [] {
      PlaceholderParses(parts[0], Print(parts[1..]), |Print(parts)|, 0);
    }
  }

  lemma TailIsCanonical(parts: seq<Part>)
    requires Canonical(parts) && parts != []
    ensures Canonical(parts[1..]) && (parts[0].field == Text && |parts| > 1 ==> parts[1].field != Text)
  {
    assert forall i :: 0 < i < |parts[1..]| ==> parts[1..][i - 1] == parts[i] && parts[1..][i] == parts[i + 1];
  }

  lemma {:induction false} PrintedParses(parts: seq<Part>, size: nat, text: string)
    requires Canonical(parts) && |Print(parts)| <= size && (text == "" || parts == [] || parts[0].field != Text)
    ensures ParseText(Print(parts), size, text) == Ok(Flushed(text) + parts)
    decreases |parts|
  {
    hide PrintPart, ParseInside, ParseText, Canonical, Doubled, IsPart, Flushed;
    if parts == [] {
      EndStep(size, text);
      assert Flushed(text) + parts == Flushed(text);
    } else {
      var part, rest := parts[0], parts[1..];
      assert [part] + rest == parts;
      TailIsCanonical(parts);
      FirstIsPart(parts);
      if part.field == Text {
        NothingFlushed(parts);
        PrintStarts(rest);
        TextComesFirst(part, Print(rest), size);
        PrintedParses(rest, size, part.prefix);
      } else {
        PrintedParses(rest, size, "");
        NothingFlushed(rest);
        PlaceholderComesFirst(part, Print(rest), size, text, rest);
      }
    }
  }

  lemma NothingFlushed(parts: seq<Part>)
    ensures Flushed("") + parts == parts
  {
  }

  lemma PlaceholderComesFirst(part: Part, more: string, size: nat, text: string, rest: seq<Part>)
    requires part.field != Text && IsPart(part) && |PrintPart(part) + more| <= size
    requires |more| <= size && ParseText(more, size, "") == Ok(rest)
    ensures ParseText(PrintPart(part) + more, size, text) == Ok(Flushed(text) + ([part] + rest))
  {
    hide PrintPart, ParseInside, ParseText, IsPart;
    var s := PrintPart(part) + more;
    PlaceholderParses(part, more, size, size - |s|);
    BraceStep(s, size, text, part, more);
    Associates(Flushed(text), [part], rest);
  }

  lemma EndStep(size: nat, text: string)
    ensures ParseText("", size, text) == Ok(Flushed(text))
  {
  }

  lemma FirstIsPart(parts: seq<Part>)
    requires Canonical(parts) && parts != []
    ensures IsPart(parts[0])
  {
  }

  /** The parser gives back what was printed. */
  lemma ParseUndoesPrint(parts: seq<Part>)
    requires Canonical(parts)
    ensures Parse(Print(parts)) == Ok(parts)
  {
    PrintedParses(parts, |Print(parts)|, "");
    assert Flushed("") + parts == parts;
  }
}
