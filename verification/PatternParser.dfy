/** The parser's loops over an index, and what every pattern it accepts has in common. */
module PatternParser {
  import opened Decimals
  import opened Pattern
  import opened Sequences

  // ---- The loops ----------------------------------------------------------------

  /** The quote with 'text' in front. */
  function Joined(text: string, quote: Quote): Quote {
    if quote.Unclosed? then Unclosed else Closed(text + quote.text, quote.rest)
  }

  lemma JoinedTwice(text: string, c: string, quote: Quote)
    ensures Joined(text, Joined(c, quote)) == Joined(text + c, quote)
  {
    if quote.Closed? { Associates(text, c, quote.text); }
  }

  /** One turn of the loop over a quote, from 'next' on. */
  lemma QuoteGoesOn(pattern: string, next: nat)
    requires next < |pattern|
    ensures ReadQuoted(pattern[next..])
         == if pattern[next] != '\'' then Joined([pattern[next]], ReadQuoted(pattern[next + 1..]))
            else if next + 1 < |pattern| && pattern[next + 1] == '\'' then Joined("'", ReadQuoted(pattern[next + 2..]))
            else Closed("", pattern[next + 1..])
  {
    var rest := pattern[next..];
    assert rest[1..] == pattern[next + 1..];
    if |rest| > 1 { assert rest[2..] == pattern[next + 2..]; }
  }

  /** The text of the quote opened before 'index'. */
  method ReadQuotedText(pattern: string, index: nat) returns (isClosed: bool, text: string, next: nat)
    requires index <= |pattern|
    ensures var quote := ReadQuoted(pattern[index..]);
      isClosed == quote.Closed? && (isClosed ==> index < next <= |pattern| && quote == Closed(text, pattern[next..]))
  {
    hide ReadQuoted;
    text, next := "", index;
    NothingJoined(ReadQuoted(pattern[index..]));
    while next < |pattern|
      invariant index <= next <= |pattern|
      invariant ReadQuoted(pattern[index..]) == Joined(text, ReadQuoted(pattern[next..]))
    {
      QuoteGoesOn(pattern, next);
      if pattern[next] == '\'' {
        if next + 1 < |pattern| && pattern[next + 1] == '\'' {
          JoinedTwice(text, "'", ReadQuoted(pattern[next + 2..]));
          text, next := text + "'", next + 2;
        } else {
          assert text + "" == text;
          return true, text, next + 1;
        }
      } else {
        JoinedTwice(text, [pattern[next]], ReadQuoted(pattern[next + 1..]));
        text, next := text + [pattern[next]], next + 1;
      }
    }
    NeverClosed(pattern[next..]);
    return false, text, next;
  }

  lemma NothingJoined(quote: Quote)
    ensures Joined("", quote) == quote
  {
    if quote.Closed? { assert "" + quote.text == quote.text; }
  }

  lemma NeverClosed(s: string)
    ensures s == "" ==> ReadQuoted(s).Unclosed?
  {
  }

  method ReadName(pattern: string, index: nat) returns (next: nat)
    requires index <= |pattern|
    ensures next == index + LetterCount(pattern[index..]) && next <= |pattern|
  {
    next := index;
    while next < |pattern| && IsLetter(pattern[next])
      invariant index <= next <= |pattern|
      invariant LetterCount(pattern[index..]) == next - index + LetterCount(pattern[next..])
    {
      assert pattern[next..][1..] == pattern[next + 1..];
      next := next + 1;
    }
  }

  lemma WidthStops(s: string, width: nat)
    requires s == "" || !IsDigit(s[0]) || width > MAX_WIDTH
    ensures ReadWidth(s, width) == (width, 0)
  {
  }

  lemma WidthStepsOn(pattern: string, next: nat, width: nat)
    requires next < |pattern| && IsDigit(pattern[next]) && width <= MAX_WIDTH
    ensures var (value, count) := ReadWidth(pattern[next + 1..], width * 10 + DigitValue(pattern[next]));
      ReadWidth(pattern[next..], width) == (value, count + 1)
  {
    assert pattern[next..][1..] == pattern[next + 1..];
  }

  method ReadWidthAt(pattern: string, index: nat) returns (width: nat, next: nat)
    requires index <= |pattern|
    ensures index <= next <= |pattern| && ReadWidth(pattern[index..], 0) == (width, next - index)
  {
    hide ReadWidth;
    width, next := 0, index;
    while next < |pattern| && IsDigit(pattern[next]) && width <= MAX_WIDTH
      invariant index <= next <= |pattern|
      invariant var (value, count) := ReadWidth(pattern[next..], width);
        ReadWidth(pattern[index..], 0) == (value, next - index + count)
    {
      WidthStepsOn(pattern, next, width);
      width := width * 10 + DigitValue(pattern[next]);
      next := next + 1;
    }
    WidthStops(pattern[next..], width);
  }

  datatype Name = BadName(problem: Problem, index: nat) | GoodName(field: Field, width: nat)

  /** The name at 'index', its width if it has one, and where they end. */
  function NameAt(pattern: string, index: nat): (r: (Name, nat))
    requires index < |pattern| && IsLetter(pattern[index])
    ensures r.0.GoodName? ==> index < r.1 <= |pattern|
  {
    var rest := pattern[index..];
    var after := index + LetterCount(rest);
    var field := FieldOf(rest[..LetterCount(rest)]);
    if field == Text then (BadName(UnknownName(rest[..LetterCount(rest)]), index), after)
    else if after < |pattern| && pattern[after] == ':' then
      var (width, count) := ReadWidth(pattern[after + 1..], 0);
      (if count == 0 || width == 0 || width > MAX_WIDTH then BadName(BadWidth, after + 1) else GoodName(field, width),
       after + 1 + count)
    else (GoodName(field, 0), after)
  }

  method ParseName(pattern: string, index: nat) returns (name: Name, next: nat)
    requires index < |pattern| && IsLetter(pattern[index])
    ensures (name, next) == NameAt(pattern, index)
  {
    hide FieldOf, LetterCount, ReadWidth;
    next := ReadName(pattern, index);
    var text := pattern[index..next];
    assert text == pattern[index..][..next - index];
    var field := FieldOf(text);
    if field == Text {
      return BadName(UnknownName(text), index), next;
    }
    if next < |pattern| && pattern[next] == ':' {
      var widthStart := next + 1;
      var width;
      width, next := ReadWidthAt(pattern, widthStart);
      if next == widthStart || width == 0 || width > MAX_WIDTH {
        return BadName(BadWidth, widthStart), next;
      }
      return GoodName(field, width), next;
    }
    return GoodName(field, 0), next;
  }

  /** The placeholder whose brace is at 'start': its part and the index after its closing brace. Taking unquoted spaces
      off an affix never takes more than it holds. */
  method ParsePlaceholder(pattern: string, start: nat) returns (parsed: ParsedPart, next: nat)
    requires start < |pattern|
    ensures parsed == ParseInside(pattern[start + 1..], |pattern|, start, ENTERED)
    ensures parsed.OkPart? ==> start < next <= |pattern| && parsed.rest == pattern[next..]
  {
    hide ParseInside, AfterQuote, AfterCharacter, ReadQuoted, NameAt;
    var part := Part(Text, 0, "", "");
    var hasName, isAfterQuote, unquotedSpaces := false, false, 0;
    next := start + 1;
    while true
      invariant start < next <= |pattern|
      invariant var st := Inside(part, hasName, isAfterQuote, unquotedSpaces);
        && InsideOk(st) && (!hasName ==> part.suffix == "")
        && ParseInside(pattern[next..], |pattern|, start, st) == ParseInside(pattern[start + 1..], |pattern|, start, ENTERED)
      decreases |pattern| - next
    {
      ghost var st := Inside(part, hasName, isAfterQuote, unquotedSpaces);
      Step(pattern, next, start, st);
      if next >= |pattern| {
        return FailedPart(UnclosedBrace, start), next;
      }
      var character := pattern[next];
      if character == '}' {
        break;
      }
      if character == '\'' {
        var affix := if hasName then part.suffix else part.prefix;
        affix := affix[..|affix| - unquotedSpaces];
        var isClosed, text, after := ReadQuotedText(pattern, next + 1);
        if !isClosed {
          return FailedPart(UnclosedQuote, next), next;
        }
        QuoteTaken(st, text);
        affix := affix + text;
        part := if hasName then part.(suffix := affix) else part.(prefix := affix);
        next, isAfterQuote, unquotedSpaces := after, true, 0;
      } else if character == ' ' && isAfterQuote {
        next := next + 1;
      } else if IsLetter(character) {
        isAfterQuote, unquotedSpaces := false, 0;
        if hasName {
          return FailedPart(SecondName, next), next;
        }
        var name;
        name, next := ParseName(pattern, next);
        if name.BadName? {
          return FailedPart(name.problem, name.index), next;
        }
        hasName := true;
        part := part.(field := name.field, width := name.width);
      } else if IsDigit(character) || character == ':' || character == '{' {
        return FailedPart(NeedsQuotes(character), next), next;
      } else {
        CharacterTaken(st, character);
        isAfterQuote := false;
        unquotedSpaces := if character == ' ' then unquotedSpaces + 1 else 0;
        part := if hasName then part.(suffix := part.suffix + [character]) else part.(prefix := part.prefix + [character]);
        next := next + 1;
      }
    }
    if !hasName {
      return FailedPart(MissingName, start), next;
    }
    next := next + 1;
    return OkPart(part, pattern[next..]), next;
  }

  lemma QuoteTaken(st: Inside, text: string)
    requires InsideOk(st)
    ensures var affix := Affix(st)[..|Affix(st)| - st.unquotedSpaces] + text;
      AfterQuote(st, text)
      == Inside(if st.hasName then st.part.(suffix := affix) else st.part.(prefix := affix), st.hasName, true, 0)
  {
  }

  lemma CharacterTaken(st: Inside, c: char)
    requires InsideOk(st)
    ensures AfterCharacter(st, c)
         == Inside(if st.hasName then st.part.(suffix := st.part.suffix + [c]) else st.part.(prefix := st.part.prefix + [c]),
                   st.hasName, false, if c == ' ' then st.unquotedSpaces + 1 else 0)
  {
  }

  lemma NameTurn(pattern: string, next: nat, start: nat, st: Inside)
    requires start < next < |pattern| && InsideOk(st) && !st.hasName && st.part.suffix == "" && IsLetter(pattern[next])
    ensures ParseInside(pattern[next..], |pattern|, start, st)
         == var (name, after) := NameAt(pattern, next);
            if name.BadName? then FailedPart(name.problem, name.index)
            else ParseInside(pattern[after..], |pattern|, start, AfterName(st, name.field, name.width))
  {
    hide ParseInside, AfterName, FieldOf, LetterCount, ReadWidth, InsideOk;
    var rest := pattern[next..];
    LetterStep(rest, |pattern|, start, st);
    assert forall i {:trigger rest[i..]} :: 0 <= i <= |rest| ==> rest[i..] == pattern[next + i..];
    assert st.part == st.part.(suffix := "");
  }

  /** One turn of the loop, from 'next' on. */
  lemma Step(pattern: string, next: nat, start: nat, st: Inside)
    requires start < next <= |pattern| && InsideOk(st) && (!st.hasName ==> st.part.suffix == "")
    ensures var rest, size := pattern[next..], |pattern|;
      ParseInside(rest, size, start, st) ==
      if next == size then FailedPart(UnclosedBrace, start)
      else if pattern[next] == '}' then
        if st.hasName then OkPart(st.part, pattern[next + 1..]) else FailedPart(MissingName, start)
      else if pattern[next] == '\'' then
        var quote := ReadQuoted(pattern[next + 1..]);
        if quote.Unclosed? then FailedPart(UnclosedQuote, next)
        else ParseInside(quote.rest, size, start, AfterQuote(st, quote.text))
      else if pattern[next] == ' ' && st.isAfterQuote then ParseInside(pattern[next + 1..], size, start, st)
      else if IsLetter(pattern[next]) then
        if st.hasName then FailedPart(SecondName, next)
        else
          var (name, after) := NameAt(pattern, next);
          if name.BadName? then FailedPart(name.problem, name.index)
          else ParseInside(pattern[after..], size, start, AfterName(st, name.field, name.width))
      else if IsDigit(pattern[next]) || pattern[next] == ':' || pattern[next] == '{' then FailedPart(NeedsQuotes(pattern[next]), next)
      else ParseInside(pattern[next + 1..], size, start, AfterCharacter(st, pattern[next]))
  {
    hide AfterQuote, AfterCharacter, AfterName, FieldOf, ReadQuoted, LetterCount, ReadWidth, InsideOk;
    if next < |pattern| && IsLetter(pattern[next]) && !st.hasName {
      hide ParseInside, NameAt;
      NameTurn(pattern, next, start, st);
    } else {
      hide NameAt;
      assert next < |pattern| ==> pattern[next..][1..] == pattern[next + 1..];
    }
  }

  predicate UsesMemory(parts: seq<Part>) {
    exists i :: 0 <= i < |parts| && (parts[i].field == WorkingSet || parts[i].field == PeakWorkingSet)
  }

  lemma UsesMemoryWith(parts: seq<Part>, part: Part)
    ensures UsesMemory(parts + [part]) == (UsesMemory(parts) || part.field == WorkingSet || part.field == PeakWorkingSet)
  {
    var all := parts + [part];
    assert all[|parts|] == part;
    if UsesMemory(parts) {
      var i :| 0 <= i < |parts| && (parts[i].field == WorkingSet || parts[i].field == PeakWorkingSet);
      assert all[i] == parts[i];
    }
  }

  function Prefixed(parts: seq<Part>, more: Parsed): Parsed {
    if more.Failed? then more else Ok(parts + more.parts)
  }

  /** One turn of the loop over a pattern, from 'index' on. */
  lemma TextStep(pattern: string, index: nat, text: string)
    requires index <= |pattern|
    ensures var size := |pattern|;
      ParseText(pattern[index..], size, text) ==
      if index == size then Ok(Flushed(text))
      else if (pattern[index] == '{' || pattern[index] == '}') && index + 1 < size && pattern[index + 1] == pattern[index] then
        ParseText(pattern[index + 2..], size, text + [pattern[index]])
      else if pattern[index] == '{' then
        var placeholder := ParseInside(pattern[index + 1..], size, index, ENTERED);
        if placeholder.FailedPart? then Failed(placeholder.problem, placeholder.index)
        else Prefixed(Flushed(text) + [placeholder.part], ParseText(placeholder.rest, size, ""))
      else if pattern[index] == '}' then Failed(UnmatchedBrace, index)
      else ParseText(pattern[index + 1..], size, text + [pattern[index]])
  {
    hide ParseInside;
    var rest := pattern[index..];
    assert forall i {:trigger rest[i..]} :: 0 <= i <= |rest| ==> rest[i..] == pattern[index + i..];
  }

  lemma PrefixedTwice(a: seq<Part>, b: seq<Part>, more: Parsed)
    ensures Prefixed(a, Prefixed(b, more)) == Prefixed(a + b, more)
  {
    if more.Ok? { assert a + (b + more.parts) == (a + b) + more.parts; }
  }

  /** The text before a placeholder, or before the end, as a part. */
  method AddText(parts: seq<Part>, text: string) returns (all: seq<Part>)
    ensures all == parts + Flushed(text) && UsesMemory(all) == UsesMemory(parts)
  {
    if text != "" {
      UsesMemoryWith(parts, Part(Text, 0, text, ""));
      return parts + [Part(Text, 0, text, "")];
    }
    assert parts + Flushed(text) == parts;
    return parts;
  }

  method ParsePattern(pattern: string) returns (parsed: Parsed, usesMemoryUsage: bool)
    ensures parsed == Parse(pattern)
    ensures parsed.Ok? ==> usesMemoryUsage == UsesMemory(parsed.parts)
  {
    hide ParseInside, ParseText, UsesMemory, Flushed;
    var parts: seq<Part>, text, index := [], "", 0;
    usesMemoryUsage := false;
    StartsParsing(pattern);
    while index < |pattern|
      invariant index <= |pattern|
      invariant Parse(pattern) == Prefixed(parts, ParseText(pattern[index..], |pattern|, text))
      invariant usesMemoryUsage == UsesMemory(parts)
      decreases |pattern| - index
    {
      TextStep(pattern, index, text);
      var character := pattern[index];
      var isDoubled := index + 1 < |pattern| && pattern[index + 1] == character;
      if (character == '{' || character == '}') && isDoubled {
        text, index := text + [character], index + 2;
      } else if character == '{' {
        parts := AddText(parts, text);
        ghost var before := parts;
        var placeholder, next := ParsePlaceholder(pattern, index);
        if placeholder.FailedPart? {
          return Failed(placeholder.problem, placeholder.index), usesMemoryUsage;
        }
        var part := placeholder.part;
        if part.field == WorkingSet || part.field == PeakWorkingSet {
          usesMemoryUsage := true;
        }
        UsesMemoryWith(parts, part);
        parts := parts + [part];
        PlaceholderAdded(before, text, part, ParseText(placeholder.rest, |pattern|, ""));
        text, index := "", next;
      } else if character == '}' {
        return Failed(UnmatchedBrace, index), usesMemoryUsage;
      } else {
        text, index := text + [character], index + 1;
      }
    }
    TextStep(pattern, index, text);
    parts := AddText(parts, text);
    return Ok(parts), usesMemoryUsage;
  }

  lemma StartsParsing(pattern: string)
    ensures Parse(pattern) == Prefixed([], ParseText(pattern[0..], |pattern|, "")) && !UsesMemory([])
  {
    hide ParseText;
    assert pattern[0..] == pattern;
    var more := Parse(pattern);
    if more.Ok? { assert [] + more.parts == more.parts; }
  }

  /** 'before' already has the text. */
  lemma PlaceholderAdded(before: seq<Part>, text: string, part: Part, more: Parsed)
    requires |Flushed(text)| <= |before| && before[|before| - |Flushed(text)|..] == Flushed(text)
    ensures var parts := before[..|before| - |Flushed(text)|];
      before == parts + Flushed(text) && Prefixed(parts, Prefixed(Flushed(text) + [part], more)) == Prefixed(before + [part], more)
  {
    hide Flushed;
    var parts := before[..|before| - |Flushed(text)|];
    PrefixedTwice(parts, Flushed(text) + [part], more);
    assert parts + (Flushed(text) + [part]) == before + [part];
  }

  // ---- What the parser accepts ---------------------------------------------------------

  lemma {:induction false} ParsedPartIsPart(s: string, size: nat, start: nat, st: Inside)
    requires InsideOk(st) && |s| <= size
    requires st.hasName ==> st.part.field != Text && st.part.width <= MAX_WIDTH
    ensures var r := ParseInside(s, size, start, st);
      r.OkPart? ==> r.part.field != Text && IsPart(r.part)
    decreases |s|
  {
    hide FieldOf, ReadQuoted, LetterCount, ReadWidth, InsideOk;
    if s == "" || s[0] == '}' {
    } else if s[0] == '\'' {
      var quote := ReadQuoted(s[1..]);
      if quote.Closed? {
        ParsedPartIsPart(quote.rest, size, start, AfterQuote(st, quote.text));
      }
    } else if s[0] == ' ' && st.isAfterQuote {
      ParsedPartIsPart(s[1..], size, start, st);
    } else if IsLetter(s[0]) {
      NameGivesPart(s, size, start, st);
    } else if !IsDigit(s[0]) && s[0] != ':' && s[0] != '{' {
      ParsedPartIsPart(s[1..], size, start, AfterCharacter(st, s[0]));
    }
  }

  lemma {:induction false} NameGivesPart(s: string, size: nat, start: nat, st: Inside)
    requires InsideOk(st) && |s| <= size && s != "" && IsLetter(s[0])
    ensures var r := ParseInside(s, size, start, st);
      r.OkPart? ==> r.part.field != Text && IsPart(r.part)
    decreases |s|, 0
  {
    hide FieldOf, ReadQuoted, ReadWidth, ParseInside, LetterCount, AfterName;
    var n := LetterCount(s);
    var field := FieldOf(s[..n]);
    LetterStep(s, size, start, st);
    if !st.hasName && field != Text {
      var clean := st.(part := st.part.(suffix := ""));
      if n < |s| && s[n] == ':' {
        var (width, count) := ReadWidth(s[n + 1..], 0);
        if count > 0 && 0 < width <= MAX_WIDTH {
          NamedIsPart(clean, field, width);
          ParsedPartIsPart(s[n + 1 + count..], size, start, AfterName(clean, field, width));
        }
      } else {
        NamedIsPart(clean, field, 0);
        ParsedPartIsPart(s[n..], size, start, AfterName(clean, field, 0));
      }
    }
  }

  lemma NamedIsPart(st: Inside, field: Field, width: nat)
    requires !st.hasName && st.part.suffix == ""
    ensures var named := AfterName(st, field, width);
      InsideOk(named) && named.hasName && named.part.field == field && named.part.width == width
  {
  }

  lemma {:induction false} ParsedTextIsCanonical(s: string, size: nat, text: string)
    requires |s| <= size
    ensures var r := ParseText(s, size, text);
      r.Ok? ==> Canonical(r.parts)
    decreases |s|
  {
    hide ParseInside;
    if s == "" {
    } else if (s[0] == '{' || s[0] == '}') && |s| > 1 && s[1] == s[0] {
      ParsedTextIsCanonical(s[2..], size, text + [s[0]]);
    } else if s[0] == '{' {
      var placeholder := ParseInside(s[1..], size, size - |s|, ENTERED);
      if placeholder.OkPart? {
        ParsedPartIsPart(s[1..], size, size - |s|, ENTERED);
        ParsedTextIsCanonical(placeholder.rest, size, "");
      }
    } else if s[0] != '}' {
      ParsedTextIsCanonical(s[1..], size, text + [s[0]]);
    }
  }

  /** Every pattern that parses has a canonical form with the same meaning. */
  lemma ParsedPrintsBack(pattern: string)
    ensures var parsed := Parse(pattern);
      parsed.Ok? ==> Canonical(parsed.parts) && Parse(Print(parsed.parts)) == parsed
  {
    ParsedTextIsCanonical(pattern, |pattern|, "");
    if Parse(pattern).Ok? {
      ParseUndoesPrint(Parse(pattern).parts);
    }
  }

  // ---- Where a problem is ----------------------------------------------------------------------

  predicate IsNameAt(pattern: string, index: nat, name: string) {
    && name != "" && index + |name| <= |pattern| && pattern[index..index + |name|] == name
    && (forall i :: 0 <= i < |name| ==> IsLetter(name[i]))
    && (index + |name| < |pattern| ==> !IsLetter(pattern[index + |name|]))
  }

  /** The index is that of what the problem is about: the brace, the quote, the name, the width or the character. */
  ghost predicate PointsAt(pattern: string, problem: Problem, index: nat) {
    match problem
    case UnmatchedBrace => index < |pattern| && pattern[index] == '}'
    case UnclosedBrace => index < |pattern| && pattern[index] == '{'
    case MissingName => index < |pattern| && pattern[index] == '{' && exists i :: index < i < |pattern| && pattern[i] == '}'
    case UnclosedQuote => index < |pattern| && pattern[index] == '\''
    case SecondName => index < |pattern| && IsLetter(pattern[index])
    case UnknownName(name) => IsNameAt(pattern, index, name) && forall field :: field != Text ==> name != NameOf(field)
    case BadWidth => 0 < index <= |pattern| && pattern[index - 1] == ':'
    case NeedsQuotes(c) => index < |pattern| && pattern[index] == c && (IsDigit(c) || c == ':' || c == '{')
  }

  lemma {:induction false} RestOfQuote(s: string)
    ensures ReadQuoted(s).Closed? ==> ReadQuoted(s).rest == s[|s| - |ReadQuoted(s).rest|..]
    decreases |s|
  {
    if s != "" {
      if s[0] == '\'' && |s| > 1 && s[1] == '\'' {
        RestOfQuote(s[2..]);
      } else if s[0] != '\'' {
        RestOfQuote(s[1..]);
      }
    }
  }

  lemma {:induction false} LettersCounted(s: string)
    ensures forall i :: 0 <= i < LetterCount(s) ==> IsLetter(s[i])
    ensures LetterCount(s) < |s| ==> !IsLetter(s[LetterCount(s)])
  {
    if s != "" && IsLetter(s[0]) {
      LettersCounted(s[1..]);
    }
  }

  lemma UnknownIsNone(name: string)
    requires FieldOf(name) == Text
    ensures forall field :: field != Text ==> name != NameOf(field)
  {
    forall field | field != Text ensures name != NameOf(field) {
      NameIsFound(field);
    }
  }

  lemma NameProblem(pattern: string, next: nat)
    requires next < |pattern| && IsLetter(pattern[next])
    ensures var name := NameAt(pattern, next).0;
      name.BadName? ==> PointsAt(pattern, name.problem, name.index) && next <= name.index
  {
    hide FieldOf, ReadWidth, LetterCount;
    var rest := pattern[next..];
    var n := LetterCount(rest);
    LettersCounted(rest);
    assert rest[..n] == pattern[next..next + n];
    assert n < |rest| ==> pattern[next + n] == rest[n];
    if FieldOf(rest[..n]) == Text { UnknownIsNone(rest[..n]); }
  }

  lemma {:induction false} InsidePointsAt(pattern: string, next: nat, start: nat, st: Inside)
    requires start < next <= |pattern| && pattern[start] == '{' && InsideOk(st) && (!st.hasName ==> st.part.suffix == "")
    ensures var r := ParseInside(pattern[next..], |pattern|, start, st);
      r.FailedPart? ==> PointsAt(pattern, r.problem, r.index) && start <= r.index
    decreases |pattern| - next
  {
    hide ParseInside, ReadQuoted, InsideOk, FieldOf, NameAt;
    Step(pattern, next, start, st);
    if next < |pattern| && pattern[next] != '}' {
      if pattern[next] == '\'' {
        var quote := ReadQuoted(pattern[next + 1..]);
        if quote.Closed? {
          RestOfQuote(pattern[next + 1..]);
          var after := |pattern| - |quote.rest|;
          assert quote.rest == pattern[after..];
          QuoteTaken(st, quote.text);
          InsidePointsAt(pattern, after, start, AfterQuote(st, quote.text));
        }
      } else if pattern[next] == ' ' && st.isAfterQuote {
        InsidePointsAt(pattern, next + 1, start, st);
      } else if IsLetter(pattern[next]) {
        NameProblem(pattern, next);
        if !st.hasName {
          var (name, after) := NameAt(pattern, next);
          if name.GoodName? {
            InsidePointsAt(pattern, after, start, AfterName(st, name.field, name.width));
          }
        }
      } else if !IsDigit(pattern[next]) && pattern[next] != ':' && pattern[next] != '{' {
        CharacterTaken(st, pattern[next]);
        InsidePointsAt(pattern, next + 1, start, AfterCharacter(st, pattern[next]));
      }
    }
  }

  lemma {:induction false} TextPointsAt(pattern: string, next: nat, text: string)
    requires next <= |pattern|
    ensures var r := ParseText(pattern[next..], |pattern|, text);
      r.Failed? ==> PointsAt(pattern, r.problem, r.index) && next <= r.index
    decreases |pattern| - next
  {
    hide ParseInside, PointsAt;
    var s := pattern[next..];
    if s != "" {
      if (s[0] == '{' || s[0] == '}') && |s| > 1 && s[1] == s[0] {
        assert s[2..] == pattern[next + 2..];
        TextPointsAt(pattern, next + 2, text + [s[0]]);
      } else if s[0] == '{' {
        assert s[1..] == pattern[next + 1..];
        Entered();
        InsidePointsAt(pattern, next + 1, next, ENTERED);
        var r := ParseInside(s[1..], |pattern|, next, ENTERED);
        if r.OkPart? {
          RestOfPart(pattern, next + 1, next, ENTERED);
          var after := |pattern| - |r.rest|;
          TextPointsAt(pattern, after, "");
        }
      } else if s[0] == '}' {
        assert PointsAt(pattern, UnmatchedBrace, next) by { Unmatched(pattern, next); }
      } else {
        assert s[1..] == pattern[next + 1..];
        TextPointsAt(pattern, next + 1, text + [s[0]]);
      }
    }
  }

  lemma Entered()
    ensures InsideOk(ENTERED) && ENTERED.part.suffix == ""
  {
  }

  lemma Unmatched(pattern: string, index: nat)
    requires index < |pattern| && pattern[index] == '}'
    ensures PointsAt(pattern, UnmatchedBrace, index)
  {
  }

  lemma {:induction false} RestOfPart(pattern: string, next: nat, start: nat, st: Inside)
    requires start < next <= |pattern| && InsideOk(st) && (!st.hasName ==> st.part.suffix == "")
    ensures var r := ParseInside(pattern[next..], |pattern|, start, st);
      r.OkPart? ==> |r.rest| < |pattern| - next && r.rest == pattern[|pattern| - |r.rest|..]
    decreases |pattern| - next
  {
    hide ParseInside, ReadQuoted, InsideOk, FieldOf, NameAt;
    Step(pattern, next, start, st);
    if next < |pattern| && pattern[next] != '}' {
      if pattern[next] == '\'' {
        var quote := ReadQuoted(pattern[next + 1..]);
        if quote.Closed? {
          RestOfQuote(pattern[next + 1..]);
          var after := |pattern| - |quote.rest|;
          assert quote.rest == pattern[after..];
          QuoteTaken(st, quote.text);
          RestOfPart(pattern, after, start, AfterQuote(st, quote.text));
        }
      } else if pattern[next] == ' ' && st.isAfterQuote {
        RestOfPart(pattern, next + 1, start, st);
      } else if IsLetter(pattern[next]) {
        if !st.hasName {
          var (name, after) := NameAt(pattern, next);
          if name.GoodName? {
            RestOfPart(pattern, after, start, AfterName(st, name.field, name.width));
          }
        }
      } else if !IsDigit(pattern[next]) && pattern[next] != ':' && pattern[next] != '{' {
        CharacterTaken(st, pattern[next]);
        RestOfPart(pattern, next + 1, start, AfterCharacter(st, pattern[next]));
      }
    }
  }

  /** A pattern is refused with an index that points at the problem. */
  lemma ProblemPointsAt(pattern: string)
    ensures Parse(pattern).Failed? ==> PointsAt(pattern, Parse(pattern).problem, Parse(pattern).index)
  {
    assert pattern[0..] == pattern;
    TextPointsAt(pattern, 0, "");
  }
}
