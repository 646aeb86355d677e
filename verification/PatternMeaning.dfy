/** What a pattern means, said without the parser's state: literal text with its braces doubled, and placeholders, spelled
    from affix tokens around a name, where spaces next to quoted text only separate it from the rest. */
module PatternMeaning {
  import opened Decimals
  import opened Pattern
  import opened Sequences

  datatype Token = Plain(c: char) | Quoted(text: string)

  const SPACE := Plain(' ')

  /** What an affix may have outside of quotes. */
  predicate IsPlain(c: char) {
    !IsLetter(c) && !IsDigit(c) && c != ':' && c != '{' && c != '}' && c != '\''
  }

  predicate AreTokens(tokens: seq<Token>) {
    forall i :: 0 <= i < |tokens| ==> tokens[i].Plain? ==> IsPlain(tokens[i].c)
  }

  /** No quoted text stands right after another: the quotes between them would be one. */
  predicate QuotesApart(tokens: seq<Token>) {
    forall i :: 0 < i < |tokens| ==> tokens[i - 1].Plain? || tokens[i].Plain?
  }

  function TextOf(token: Token): string {
    if token.Plain? then [token.c] else token.text
  }

  /** Spaces back from index 'i', or none, lead to quoted text. */
  predicate QuoteBefore(tokens: seq<Token>, i: nat)
    requires i <= |tokens|
  {
    i > 0 && (tokens[i - 1].Quoted? || (tokens[i - 1] == SPACE && QuoteBefore(tokens, i - 1)))
  }

  /** Spaces on from index 'i', or none, lead to quoted text. */
  predicate QuoteAfter(tokens: seq<Token>, i: nat)
    requires i <= |tokens|
    decreases |tokens| - i
  {
    i < |tokens| && (tokens[i].Quoted? || (tokens[i] == SPACE && QuoteAfter(tokens, i + 1)))
  }

  predicate Separates(tokens: seq<Token>, i: nat)
    requires i < |tokens|
  {
    tokens[i] == SPACE && (QuoteBefore(tokens, i) || QuoteAfter(tokens, i + 1))
  }

  /** What the first 'n' tokens stand for among all. */
  function Shown(tokens: seq<Token>, n: nat): string
    requires n <= |tokens|
  {
    if n == 0 then "" else Shown(tokens, n - 1) + if Separates(tokens, n - 1) then "" else TextOf(tokens[n - 1])
  }

  function AffixOf(tokens: seq<Token>): string {
    Shown(tokens, |tokens|)
  }

  /** The pattern's text for the tokens. */
  function Spelled(tokens: seq<Token>): string {
    if tokens == [] then ""
    else (if tokens[0].Plain? then [tokens[0].c] else "'" + Doubled(tokens[0].text, false) + "'") + Spelled(tokens[1..])
  }

  // ---- One token more ----------------------------------------------------------------

  function EndingSpaces(tokens: seq<Token>): (count: nat)
    ensures count <= |tokens| && forall i :: |tokens| - count <= i < |tokens| ==> tokens[i] == SPACE
    ensures count < |tokens| ==> tokens[|tokens| - count - 1] != SPACE
  {
    if tokens == [] || tokens[|tokens| - 1] != SPACE then 0 else 1 + EndingSpaces(tokens[..|tokens| - 1])
  }

  lemma {:induction false} BeforeStays(tokens: seq<Token>, token: Token, i: nat)
    requires i <= |tokens|
    ensures QuoteBefore(tokens + [token], i) == QuoteBefore(tokens, i)
  {
    if i > 0 { BeforeStays(tokens, token, i - 1); }
  }

  lemma {:induction false} AfterWith(tokens: seq<Token>, token: Token, i: nat)
    requires i <= |tokens|
    ensures QuoteAfter(tokens + [token], i)
         == (QuoteAfter(tokens, i) || (token.Quoted? && i >= |tokens| - EndingSpaces(tokens)))
    decreases |tokens| - i
  {
    if i < |tokens| {
      AfterWith(tokens, token, i + 1);
    }
  }

  /** A plain token more changes nothing about the tokens before it. */
  lemma {:induction false} ShownBeforePlain(tokens: seq<Token>, c: char, n: nat)
    requires n <= |tokens|
    ensures Shown(tokens + [Plain(c)], n) == Shown(tokens, n)
  {
    hide QuoteBefore, QuoteAfter, EndingSpaces;
    if n > 0 {
      assert (tokens + [Plain(c)])[n - 1] == tokens[n - 1];
      ShownBeforePlain(tokens, c, n - 1);
      BeforeStays(tokens, Plain(c), n - 1);
      AfterWith(tokens, Plain(c), n);
    }
  }

  lemma AddsPlain(tokens: seq<Token>, c: char)
    ensures AffixOf(tokens + [Plain(c)])
         == AffixOf(tokens) + if c == ' ' && QuoteBefore(tokens, |tokens|) then "" else [c]
    ensures QuoteBefore(tokens + [Plain(c)], |tokens| + 1) == (c == ' ' && QuoteBefore(tokens, |tokens|))
  {
    ShownBeforePlain(tokens, c, |tokens|);
    BeforeStays(tokens, Plain(c), |tokens|);
  }

  lemma MoreSpaces(tokens: seq<Token>, token: Token)
    ensures EndingSpaces(tokens + [token]) == if token == SPACE then EndingSpaces(tokens) + 1 else 0
  {
    assert (tokens + [token])[..|tokens|] == tokens;
  }

  /** Quoted text takes the spaces before it away. */
  lemma {:induction false} ShownBeforeQuote(tokens: seq<Token>, text: string, n: nat)
    requires n <= |tokens|
    ensures var kept := |tokens| - EndingSpaces(tokens);
      Shown(tokens + [Quoted(text)], n) == Shown(tokens, if n <= kept then n else kept)
  {
    if n > 0 {
      ShownBeforeQuote(tokens, text, n - 1);
      BeforeStays(tokens, Quoted(text), n - 1);
      AfterWith(tokens, Quoted(text), n);
    }
  }

  /** The spaces at the end show, unless quoted text comes before them. */
  lemma {:induction false} EndShows(tokens: seq<Token>, n: nat)
    requires |tokens| - EndingSpaces(tokens) <= n <= |tokens|
    ensures var kept := |tokens| - EndingSpaces(tokens);
      && QuoteBefore(tokens, n) == QuoteBefore(tokens, kept)
      && Shown(tokens, n) == Shown(tokens, kept) + if QuoteBefore(tokens, kept) then "" else seq(n - kept, _ => ' ')
  {
    var kept := |tokens| - EndingSpaces(tokens);
    if n > kept {
      EndShows(tokens, n - 1);
      NoQuoteAtEnd(tokens, n);
      assert seq(n - kept, _ => ' ') == seq(n - 1 - kept, _ => ' ') + " ";
    }
  }

  lemma {:induction false} NoQuoteAtEnd(tokens: seq<Token>, n: nat)
    requires |tokens| - EndingSpaces(tokens) <= n <= |tokens|
    ensures !QuoteAfter(tokens, n)
    decreases |tokens| - n
  {
    if n < |tokens| { NoQuoteAtEnd(tokens, n + 1); }
  }

  lemma AddsQuote(tokens: seq<Token>, text: string)
    ensures var affix, dropped := AffixOf(tokens), if QuoteBefore(tokens, |tokens|) then 0 else EndingSpaces(tokens);
      dropped <= |affix| && AffixOf(tokens + [Quoted(text)]) == affix[..|affix| - dropped] + text
  {
    hide QuoteBefore, QuoteAfter, EndingSpaces;
    ShownBeforeQuote(tokens, text, |tokens|);
    EndShows(tokens, |tokens|);
    var all := tokens + [Quoted(text)];
    assert !Separates(all, |tokens|);
  }

  // ---- The parser's state ------------------------------------------------------------------

  /** The state after these tokens of an affix. */
  predicate HasRead(st: Inside, tokens: seq<Token>) {
    && Affix(st) == AffixOf(tokens)
    && st.isAfterQuote == QuoteBefore(tokens, |tokens|)
    && st.unquotedSpaces == if st.isAfterQuote then 0 else EndingSpaces(tokens)
  }

  lemma ReadsCharacter(st: Inside, tokens: seq<Token>, c: char)
    requires InsideOk(st) && HasRead(st, tokens)
    ensures HasRead(if c == ' ' && st.isAfterQuote then st else AfterCharacter(st, c), tokens + [Plain(c)])
  {
    hide AffixOf, EndingSpaces;
    AddsPlain(tokens, c);
    MoreSpaces(tokens, Plain(c));
  }

  lemma ReadsQuote(st: Inside, tokens: seq<Token>, text: string)
    requires InsideOk(st) && HasRead(st, tokens)
    ensures HasRead(AfterQuote(st, text), tokens + [Quoted(text)])
  {
    hide AffixOf, EndingSpaces;
    AddsQuote(tokens, text);
    MoreSpaces(tokens, Quoted(text));
  }

  // ---- The text that was read ---------------------------------------------------------------

  lemma {:induction false} QuoteSpells(s: string)
    ensures var quote := ReadQuoted(s); quote.Closed? ==> s == Doubled(quote.text, false) + "'" + quote.rest
  {
    if s != "" && !(s[0] == '\'' && (|s| == 1 || s[1] != '\'')) {
      var n := if s[0] == '\'' then 2 else 1;
      QuoteSpells(s[n..]);
      var more, quote := ReadQuoted(s[n..]), ReadQuoted(s);
      if quote.Closed? {
        assert quote.text[0] == s[0] && quote.text[1..] == more.text;
        assert s == s[..n] + s[n..] && s[..n] == if n == 2 then [s[0], s[0]] else [s[0]];
      }
    }
  }

  /** A closing quote isn't followed by a quote. */
  lemma {:induction false} QuoteEnds(s: string)
    ensures ReadQuoted(s).Closed? ==> ReadQuoted(s).rest == "" || ReadQuoted(s).rest[0] != '\''
  {
    if s != "" && !(s[0] == '\'' && (|s| == 1 || s[1] != '\'')) {
      QuoteEnds(s[if s[0] == '\'' then 2 else 1..]);
    }
  }

  lemma MoreApart(token: Token, tokens: seq<Token>)
    requires QuotesApart(tokens) && (token.Plain? || tokens == [] || tokens[0].Plain?)
    ensures QuotesApart([token] + tokens)
  {
  }

  lemma FirstToken(tokens: seq<Token>, rest: string)
    requires tokens != []
    ensures var s := Spelled(tokens) + rest;
      s != "" && (if tokens[0].Plain? then s[0] == tokens[0].c && s[1..] == Spelled(tokens[1..]) + rest
                  else s[0] == '\'' && s[1..] == Doubled(tokens[0].text, false) + "'" + (Spelled(tokens[1..]) + rest))
  {
    hide Doubled;
    if tokens[0].Plain? {
      CharacterFirst([tokens[0].c], Spelled(tokens[1..]), rest);
    } else {
      QuoteFirst(Doubled(tokens[0].text, false), Spelled(tokens[1..]), rest);
    }
  }

  lemma CharacterFirst(first: string, more: string, rest: string)
    requires |first| == 1
    ensures (first + more) + rest != "" && ((first + more) + rest)[0] == first[0] && ((first + more) + rest)[1..] == more + rest
  {
  }

  lemma QuoteFirst(inner: string, more: string, rest: string)
    ensures var s := (("'" + inner + "'") + more) + rest;
      s != "" && s[0] == '\'' && s[1..] == inner + "'" + (more + rest)
  {
    assert (("'" + inner + "'") + more) + rest == "'" + (inner + "'" + (more + rest));
  }

  /** Spelled tokens that don't start with a quote don't start with quoted text. */
  lemma FirstIsPlain(s: string, tokens: seq<Token>, rest: string)
    requires s == Spelled(tokens) + rest && (s == "" || s[0] != '\'')
    ensures tokens == [] || tokens[0].Plain?
  {
    if tokens != [] {
      FirstToken(tokens, rest);
    }
  }

  lemma SpellsPlain(c: char, tokens: seq<Token>)
    ensures Spelled([Plain(c)] + tokens) == [c] + Spelled(tokens)
  {
    assert ([Plain(c)] + tokens)[1..] == tokens;
  }

  lemma SpellsQuote(s: string, tokens: seq<Token>, rest: string)
    requires s != "" && s[0] == '\'' && ReadQuoted(s[1..]).Closed? && ReadQuoted(s[1..]).rest == Spelled(tokens) + rest
    ensures s == Spelled([Quoted(ReadQuoted(s[1..]).text)] + tokens) + rest
  {
    hide Doubled;
    var quote := ReadQuoted(s[1..]);
    QuoteSpells(s[1..]);
    assert ([Quoted(quote.text)] + tokens)[1..] == tokens;
    assert s == "'" + s[1..];
  }

  /** After the name: tokens, the closing brace, and the suffix they stand for. */
  lemma {:induction false} SuffixMeans(s: string, size: nat, start: nat, st: Inside, done: seq<Token>)
      returns (tokens: seq<Token>)
    requires InsideOk(st) && |s| <= size && st.hasName && HasRead(st, done) && ParseInside(s, size, start, st).OkPart?
    ensures var r := ParseInside(s, size, start, st);
      && AreTokens(tokens) && QuotesApart(tokens) && s == Spelled(tokens) + ("}" + r.rest)
      && r.part == st.part.(suffix := AffixOf(done + tokens))
    decreases |s|
  {
    hide HasRead, AffixOf, AfterQuote, AfterCharacter, ReadQuoted, Spelled, InsideOk;
    if s[0] == '}' {
      tokens := [];
      NothingSpelled();
      assert done + tokens == done && s == "" + ("}" + s[1..]);
      AffixIsRead(st, done);
    } else if s[0] == '\'' {
      var quote := ReadQuoted(s[1..]);
      ReadsQuote(st, done, quote.text);
      KeepsName(st, quote.text, s[0]);
      var more := SuffixMeans(quote.rest, size, start, AfterQuote(st, quote.text), done + [Quoted(quote.text)]);
      tokens := [Quoted(quote.text)] + more;
      QuoteEnds(s[1..]);
      FirstIsPlain(quote.rest, more, "}" + ParseInside(s, size, start, st).rest);
      MoreApart(Quoted(quote.text), more);
      Associates(done, [Quoted(quote.text)], more);
      SpellsQuote(s, more, "}" + ParseInside(s, size, start, st).rest);
    } else {
      ReadsCharacter(st, done, s[0]);
      KeepsName(st, "", s[0]);
      var next := if s[0] == ' ' && st.isAfterQuote then st else AfterCharacter(st, s[0]);
      var more := SuffixMeans(s[1..], size, start, next, done + [Plain(s[0])]);
      tokens := [Plain(s[0])] + more;
      MoreApart(Plain(s[0]), more);
      Associates(done, [Plain(s[0])], more);
      SpellsPlain(s[0], more);
      assert s == [s[0]] + s[1..];
      Associates([s[0]], Spelled(more), "}" + ParseInside(s, size, start, st).rest);
    }
  }

  lemma NothingSpelled()
    ensures Spelled([]) == ""
  {
  }

  lemma AffixIsRead(st: Inside, tokens: seq<Token>)
    requires HasRead(st, tokens) && st.hasName
    ensures st.part.suffix == AffixOf(tokens)
  {
  }

  lemma KeepsName(st: Inside, text: string, c: char)
    requires InsideOk(st)
    ensures AfterQuote(st, text).hasName == AfterCharacter(st, c).hasName == st.hasName
    ensures st.hasName ==> AfterQuote(st, text).part == st.part.(suffix := AfterQuote(st, text).part.suffix)
    ensures st.hasName ==> AfterCharacter(st, c).part == st.part.(suffix := AfterCharacter(st, c).part.suffix)
    ensures !st.hasName ==> AfterQuote(st, text).part == st.part.(prefix := AfterQuote(st, text).part.prefix)
    ensures !st.hasName ==> AfterCharacter(st, c).part == st.part.(prefix := AfterCharacter(st, c).part.prefix)
  {
  }

  lemma {:induction false} FieldHasName(name: string, i: nat)
    requires i <= |NAMED|
    ensures FindField(name, i) != Text ==> NameOf(FindField(name, i)) == name
    decreases |NAMED| - i
  {
    hide NameOf;
    if i < |NAMED| && NameOf(NAMED[i]) != name { FieldHasName(name, i + 1); }
  }

  /** The text of a width, or of none. */
  predicate SpellsWidth(text: string, width: nat) {
    if text == "" then width == 0
    else text[0] == ':' && 0 < width <= 1000 && ReadWidth(text[1..], 0) == (width, |text| - 1)
  }

  lemma {:induction false} DigitsRead(s: string, width: nat)
    ensures var (value, count) := ReadWidth(s, width); ReadWidth(s[..count], width) == (value, count)
  {
    var (value, count) := ReadWidth(s, width);
    if count > 0 {
      DigitsRead(s[1..], width * 10 + DigitValue(s[0]));
      assert s[..count][1..] == s[1..][..count - 1];
    }
  }

  /** The name at the front of 's' and its width, and what follows. */
  lemma NameMeans(s: string, size: nat, start: nat, st: Inside) returns (width: string, tokens: seq<Token>)
    requires InsideOk(st) && |s| <= size && s != "" && IsLetter(s[0]) && !st.hasName && ParseInside(s, size, start, st).OkPart?
    ensures var r := ParseInside(s, size, start, st);
      && r.part.field != Text && r.part.prefix == st.part.prefix && r.part.suffix == AffixOf(tokens)
      && AreTokens(tokens) && QuotesApart(tokens)
      && SpellsWidth(width, r.part.width)
      && s == NameOf(r.part.field) + (width + (Spelled(tokens) + ("}" + r.rest)))
  {
    hide ParseInside, NameOf, ReadWidth, FindField, Spelled, AffixOf;
    LetterStep(s, size, start, st);
    var r, n := ParseInside(s, size, start, st), LetterCount(s);
    var name := s[..n];
    FieldHasName(name, 0);
    var clean := st.(part := st.part.(suffix := ""));
    var next, rest;
    if n < |s| && s[n] == ':' {
      var (value, count) := ReadWidth(s[n + 1..], 0);
      DigitsRead(s[n + 1..], 0);
      width := s[n..n + 1 + count];
      assert width[1..] == s[n + 1..][..count];
      next, rest := AfterName(clean, FieldOf(name), value), s[n + 1 + count..];
      WidthEnds(s, n, count, rest);
    } else {
      width := "";
      next, rest := AfterName(clean, FieldOf(name), 0), s[n..];
      assert s == name + (width + rest);
    }
    StartsSuffix(next);
    tokens := SuffixMeans(rest, size, start, next, []);
    assert [] + tokens == tokens;
  }

  lemma WidthEnds(s: string, n: nat, count: nat, rest: string)
    requires n + 1 + count <= |s| && rest == s[n + 1 + count..]
    ensures s == s[..n] + (s[n..n + 1 + count] + rest)
  {
  }

  lemma StartsSuffix(st: Inside)
    requires st.hasName && st.part.suffix == "" && !st.isAfterQuote && st.unquotedSpaces == 0
    ensures HasRead(st, [])
  {
  }

  lemma AffixIsPrefix(st: Inside, tokens: seq<Token>)
    requires HasRead(st, tokens) && !st.hasName
    ensures st.part.prefix == AffixOf(tokens)
  {
  }

  /** Before the name. */
  lemma {:induction false} PrefixMeans(s: string, size: nat, start: nat, st: Inside, done: seq<Token>)
      returns (before: seq<Token>, width: string, after: seq<Token>)
    requires InsideOk(st) && |s| <= size && !st.hasName && HasRead(st, done) && ParseInside(s, size, start, st).OkPart?
    ensures var r := ParseInside(s, size, start, st);
      && r.part.field != Text && r.part.prefix == AffixOf(done + before) && r.part.suffix == AffixOf(after)
      && AreTokens(before) && AreTokens(after) && QuotesApart(before) && QuotesApart(after) && SpellsWidth(width, r.part.width)
      && s == Spelled(before) + (NameOf(r.part.field) + (width + (Spelled(after) + ("}" + r.rest))))
    decreases |s|
  {
    hide HasRead, AffixOf, AfterQuote, AfterCharacter, ReadQuoted, Spelled, InsideOk, NameOf, FieldOf, SpellsWidth, ReadWidth;
    var r := ParseInside(s, size, start, st);
    if IsLetter(s[0]) {
      width, after := NameMeans(s, size, start, st);
      before := [];
      NothingSpelled();
      assert done + before == done && s == "" + s;
      AffixIsPrefix(st, done);
    } else if s[0] == '\'' {
      var quote := ReadQuoted(s[1..]);
      ReadsQuote(st, done, quote.text);
      KeepsName(st, quote.text, s[0]);
      var more;
      more, width, after := PrefixMeans(quote.rest, size, start, AfterQuote(st, quote.text), done + [Quoted(quote.text)]);
      before := [Quoted(quote.text)] + more;
      QuoteEnds(s[1..]);
      FirstIsPlain(quote.rest, more, NameOf(r.part.field) + (width + (Spelled(after) + ("}" + r.rest))));
      MoreApart(Quoted(quote.text), more);
      Associates(done, [Quoted(quote.text)], more);
      SpellsQuote(s, more, NameOf(r.part.field) + (width + (Spelled(after) + ("}" + r.rest))));
    } else {
      ReadsCharacter(st, done, s[0]);
      KeepsName(st, "", s[0]);
      var next := if s[0] == ' ' && st.isAfterQuote then st else AfterCharacter(st, s[0]);
      var more;
      more, width, after := PrefixMeans(s[1..], size, start, next, done + [Plain(s[0])]);
      before := [Plain(s[0])] + more;
      MoreApart(Plain(s[0]), more);
      Associates(done, [Plain(s[0])], more);
      SpellsPlain(s[0], more);
      assert s == [s[0]] + s[1..];
      Associates([s[0]], Spelled(more), NameOf(r.part.field) + (width + (Spelled(after) + ("}" + r.rest))));
    }
  }

  /** A run of literal text, or a placeholder with the tokens of its affixes and the text of its width. */
  datatype Piece = Literal(text: string) | Placeholder(before: seq<Token>, width: string, after: seq<Token>, part: Part)

  /** What a piece stands for: the literal text itself, or the placeholder's field with the affixes its tokens mean. */
  ghost predicate Stands(piece: Piece, part: Part) {
    match piece
    case Literal(text) => text != "" && part == Part(Text, 0, text, "")
    case Placeholder(before, width, after, meant) =>
      && part == meant && part.field != Text
      && AreTokens(before) && AreTokens(after) && QuotesApart(before) && QuotesApart(after)
      && SpellsWidth(width, part.width) && part.prefix == AffixOf(before) && part.suffix == AffixOf(after)
  }

  /** The placeholder's text up to its closing brace, for these tokens, field and width. */
  ghost predicate SpellsPart(s: string, before: seq<Token>, width: string, after: seq<Token>, part: Part, rest: string) {
    Stands(Placeholder(before, width, after, part), part)
    && s == Spelled(before) + (NameOf(part.field) + (width + (Spelled(after) + ("}" + rest))))
  }

  /** Every placeholder that parses is spelled from tokens that mean its affixes: characters and quoted texts as they are,
      without the spaces next to a quoted text. */
  lemma PlaceholderMeans(s: string, size: nat, start: nat) returns (before: seq<Token>, width: string, after: seq<Token>)
    requires |s| <= size && ParseInside(s, size, start, ENTERED).OkPart?
    ensures var r := ParseInside(s, size, start, ENTERED); SpellsPart(s, before, width, after, r.part, r.rest)
  {
    hide ParseInside, AffixOf, Spelled, NameOf, SpellsWidth;
    NothingRead();
    before, width, after := PrefixMeans(s, size, start, ENTERED, []);
    assert [] + before == before;
  }

  lemma NothingRead()
    ensures HasRead(ENTERED, []) && InsideOk(ENTERED)
  {
  }

  // ---- The other way round -----------------------------------------------------------------------

  lemma RestApart(tokens: seq<Token>)
    requires tokens != [] && AreTokens(tokens) && QuotesApart(tokens)
    ensures AreTokens(tokens[1..]) && QuotesApart(tokens[1..])
  {
    assert forall i :: 0 <= i < |tokens[1..]| ==> tokens[1..][i] == tokens[i + 1];
  }

  lemma SpelledStarts(tokens: seq<Token>, rest: string)
    requires AreTokens(tokens) && (tokens != [] ==> tokens[0].Plain?) && rest != "" && rest[0] != '\''
    ensures Spelled(tokens) + rest != "" && (Spelled(tokens) + rest)[0] != '\''
  {
  }

  /** Tokens are read one by one, up to what can't be part of an affix. */
  lemma {:induction false} TokensRead(tokens: seq<Token>, rest: string, size: nat, start: nat, st: Inside, done: seq<Token>)
      returns (next: Inside)
    requires InsideOk(st) && HasRead(st, done) && AreTokens(tokens) && QuotesApart(tokens) && |Spelled(tokens) + rest| <= size
    requires rest != "" && rest[0] != '\''
    ensures InsideOk(next) && HasRead(next, done + tokens)
    ensures next.hasName == st.hasName
    ensures next.part == if st.hasName then st.part.(suffix := next.part.suffix) else st.part.(prefix := next.part.prefix)
    ensures ParseInside(Spelled(tokens) + rest, size, start, st) == ParseInside(rest, size, start, next)
    decreases |tokens|
  {
    hide HasRead, AffixOf, AfterQuote, AfterCharacter, ReadQuoted, Spelled, InsideOk, Doubled, LetterCount, ReadWidth, FieldOf;
    if tokens == [] {
      NothingSpelled();
      assert done + tokens == done && "" + rest == rest;
      next := st;
    } else {
      FirstToken(tokens, rest);
      RestApart(tokens);
      var s, more := Spelled(tokens) + rest, Spelled(tokens[1..]) + rest;
      Associates(done, [tokens[0]], tokens[1..]);
      assert [tokens[0]] + tokens[1..] == tokens;
      var after;
      if tokens[0].Plain? {
        var c := tokens[0].c;
        ReadsCharacter(st, done, c);
        KeepsName(st, "", c);
        after := if c == ' ' && st.isAfterQuote then st else AfterCharacter(st, c);
        PlainStep(s, size, start, st);
      } else {
        var text := tokens[0].text;
        SpelledStarts(tokens[1..], rest);
        QuotedReads(text, more);
        QuoteStep(s, size, start, st, text, more);
        ReadsQuote(st, done, text);
        KeepsName(st, text, ' ');
        after := AfterQuote(st, text);
      }
      next := TokensRead(tokens[1..], rest, size, start, after, done + [tokens[0]]);
    }
  }

  lemma PlainStep(s: string, size: nat, start: nat, st: Inside)
    requires InsideOk(st) && s != "" && |s| <= size && IsPlain(s[0])
    ensures ParseInside(s, size, start, st)
         == ParseInside(s[1..], size, start, if s[0] == ' ' && st.isAfterQuote then st else AfterCharacter(st, s[0]))
  {
    hide AfterQuote, AfterCharacter, ReadQuoted, LetterCount, ReadWidth, FieldOf;
  }

  /** A name and its width are read as the field with that width. */
  lemma NameReads(field: Field, text: string, width: nat, rest: string, size: nat, start: nat, st: Inside)
    requires InsideOk(st) && !st.hasName && field != Text && SpellsWidth(text, width) && st.part.suffix == ""
    requires rest != "" && rest[0] != ':' && !IsLetter(rest[0]) && !IsDigit(rest[0])
    requires |NameOf(field) + (text + rest)| <= size
    ensures ParseInside(NameOf(field) + (text + rest), size, start, st)
         == ParseInside(rest, size, start, AfterName(st, field, width))
  {
    hide ParseInside, NameOf, FieldOf, AfterName;
    var name := NameOf(field);
    NameIsFound(field);
    assert st.part.(suffix := "") == st.part;
    if text == "" {
      assert text + rest == rest;
      NameStep(name, rest, size, start, st);
    } else {
      var digits := text[1..];
      WidthGoesOn(digits, rest, 0, width);
      assert text == ":" + digits;
      assert name + (text + rest) == name + ":" + digits + rest;
      WidthStep(name, width, digits, rest, size, start, st);
    }
  }

  /** A width that was read to its end is the same before what isn't a digit. */
  lemma {:induction false} WidthGoesOn(digits: string, rest: string, from: nat, width: nat)
    requires ReadWidth(digits, from) == (width, |digits|) && width <= MAX_WIDTH && rest != "" && !IsDigit(rest[0])
    ensures ReadWidth(digits + rest, from) == (width, |digits|)
    ensures from == 0 && width > 0 ==> digits != ""
    decreases |digits|
  {
    if digits == "" {
      assert digits + rest == rest;
    } else {
      assert (digits + rest)[1..] == digits[1..] + rest;
      WidthGoesOn(digits[1..], rest, from * 10 + DigitValue(digits[0]), width);
    }
  }

  lemma SuffixStarts(tokens: seq<Token>, rest: string)
    requires AreTokens(tokens)
    ensures var s := Spelled(tokens) + ("}" + rest); s != "" && s[0] != ':' && !IsLetter(s[0]) && !IsDigit(s[0])
  {
    hide Doubled;
    if tokens != [] { FirstToken(tokens, "}" + rest); }
  }

  lemma NameStarts(field: Field, rest: string)
    requires field != Text
    ensures NameOf(field) + rest != "" && (NameOf(field) + rest)[0] != '\''
  {
    hide NameOf;
    NameIsFound(field);
  }

  /** Every text spelled like that parses, to the part that the tokens mean. */
  lemma PlaceholderReads(s: string, size: nat, start: nat, before: seq<Token>, width: string, after: seq<Token>, part: Part,
                         rest: string)
    requires |s| <= size && SpellsPart(s, before, width, after, part, rest)
    ensures ParseInside(s, size, start, ENTERED) == OkPart(part, rest)
  {
    hide ParseInside, AffixOf, Spelled, NameOf, SpellsWidth, HasRead, AreTokens, QuotesApart;
    NothingRead();
    var closing := Spelled(after) + ("}" + rest);
    SuffixStarts(after, rest);
    NameStarts(part.field, width + closing);
    var st := TokensRead(before, NameOf(part.field) + (width + closing), size, start, ENTERED, []);
    assert [] + before == before && [] + after == after;
    AffixIsPrefix(st, before);
    NameReads(part.field, width, part.width, closing, size, start, st);
    var named := AfterName(st, part.field, part.width);
    StartsSuffix(named);
    var last := TokensRead(after, "}" + rest, size, start, named, []);
    AffixIsRead(last, after);
    CloseStep(rest, size, start, last);
  }

  /** So a placeholder is exactly such a text, and it means exactly what its tokens mean. */
  lemma PlaceholderIsSpelled(s: string, size: nat, start: nat, part: Part, rest: string)
    requires |s| <= size
    ensures ParseInside(s, size, start, ENTERED) == OkPart(part, rest)
       <==> exists before, width, after :: SpellsPart(s, before, width, after, part, rest)
  {
    hide ParseInside, SpellsPart;
    if ParseInside(s, size, start, ENTERED) == OkPart(part, rest) {
      var before, width, after := PlaceholderMeans(s, size, start);
    }
    if exists before, width, after :: SpellsPart(s, before, width, after, part, rest) {
      var before, width, after :| SpellsPart(s, before, width, after, part, rest);
      PlaceholderReads(s, size, start, before, width, after, part, rest);
    }
  }

  // ---- The whole pattern -------------------------------------------------------------------------

  /** The pattern's text for the pieces: in literal text, each brace stands twice. */
  function PatternText(pieces: seq<Piece>): string {
    if pieces == [] then ""
    else
      var rest := PatternText(pieces[1..]);
      match pieces[0]
      case Literal(text) => Doubled(text, true) + rest
      case Placeholder(before, width, after, part) =>
        "{" + (Spelled(before) + (NameOf(part.field) + (width + (Spelled(after) + ("}" + rest)))))
  }

  /** The pattern consists of pieces, no literal text right after another, that stand for the parts one by one. */
  ghost predicate SpellsPattern(pattern: string, pieces: seq<Piece>, parts: seq<Part>) {
    && pattern == PatternText(pieces) && |pieces| == |parts|
    && (forall i :: 0 <= i < |pieces| ==> Stands(pieces[i], parts[i]))
    && (forall i :: 0 < i < |pieces| ==> pieces[i - 1].Placeholder? || pieces[i].Placeholder?)
  }

  lemma {:induction false} DoubledAppended(text: string, c: char)
    ensures Doubled(text + [c], true) == Doubled(text, true) + if c == '{' || c == '}' then [c, c] else [c]
  {
    if text == "" {
      assert "" + [c] == [c] && [c][1..] == "";
    } else {
      assert (text + [c])[1..] == text[1..] + [c];
      DoubledAppended(text[1..], c);
    }
  }

  /** Literal text before the pieces, if they don't start with literal text. */
  function WithText(text: string, pieces: seq<Piece>): seq<Piece> {
    if text == "" then pieces else [Literal(text)] + pieces
  }

  lemma TextBefore(text: string, pattern: string, pieces: seq<Piece>, parts: seq<Part>)
    requires SpellsPattern(pattern, pieces, parts) && (pieces != [] ==> pieces[0].Placeholder?)
    ensures SpellsPattern(Doubled(text, true) + pattern, WithText(text, pieces), Flushed(text) + parts)
  {
    var all := WithText(text, pieces);
    if text != "" {
      assert all[1..] == pieces;
    } else {
      assert Doubled(text, true) + pattern == pattern && Flushed(text) + parts == parts;
    }
  }

  lemma PlaceholderBefore(s: string, before: seq<Token>, width: string, after: seq<Token>, part: Part, rest: string,
                          pieces: seq<Piece>, parts: seq<Part>)
    requires SpellsPart(s, before, width, after, part, rest) && SpellsPattern(rest, pieces, parts)
    ensures SpellsPattern("{" + s, [Placeholder(before, width, after, part)] + pieces, [part] + parts)
  {
    hide AffixOf, Spelled, NameOf, SpellsWidth, AreTokens, QuotesApart;
    var all := [Placeholder(before, width, after, part)] + pieces;
    assert all[1..] == pieces;
  }

  /** Every pattern that parses consists of such pieces; 'text' is what was read of the first one. */
  lemma {:induction false} TextMeans(s: string, size: nat, text: string) returns (pieces: seq<Piece>)
    requires |s| <= size && ParseText(s, size, text).Ok?
    ensures SpellsPattern(Doubled(text, true) + s, pieces, ParseText(s, size, text).parts)
    decreases |s|
  {
    hide ParseInside, SpellsPart, SpellsPattern, Doubled, Flushed;
    if s == "" {
      NothingToSpell();
      TextBefore(text, "", [], []);
      pieces := WithText(text, []);
      assert Flushed(text) + [] == Flushed(text);
    } else if (s[0] == '{' || s[0] == '}') && |s| > 1 && s[1] == s[0] {
      DoubledAppended(text, s[0]);
      assert s == [s[0], s[0]] + s[2..];
      Associates(Doubled(text, true), [s[0], s[0]], s[2..]);
      pieces := TextMeans(s[2..], size, text + [s[0]]);
    } else if s[0] == '{' {
      var r := ParseInside(s[1..], size, size - |s|, ENTERED);
      var before, width, after := PlaceholderMeans(s[1..], size, size - |s|);
      var more := TextMeans(r.rest, size, "");
      NothingToSpell();
      var parts := ParseText(r.rest, size, "").parts;
      assert Doubled("", true) + r.rest == r.rest;
      PlaceholderBefore(s[1..], before, width, after, r.part, r.rest, more, parts);
      assert "{" + s[1..] == s;
      var all := [Placeholder(before, width, after, r.part)] + more;
      TextBefore(text, s, all, [r.part] + parts);
      pieces := WithText(text, all);
      Associates(Flushed(text), [r.part], parts);
    } else {
      DoubledAppended(text, s[0]);
      assert s == [s[0]] + s[1..];
      Associates(Doubled(text, true), [s[0]], s[1..]);
      pieces := TextMeans(s[1..], size, text + [s[0]]);
    }
  }

  lemma NothingToSpell()
    ensures Doubled("", true) == "" && SpellsPattern("", [], [])
  {
  }

  lemma RestSpelled(pieces: seq<Piece>, parts: seq<Part>)
    requires SpellsPattern(PatternText(pieces), pieces, parts) && pieces != []
    ensures parts != [] && Stands(pieces[0], parts[0]) && SpellsPattern(PatternText(pieces[1..]), pieces[1..], parts[1..])
    ensures pieces[0].Literal? && |pieces| > 1 ==> pieces[1].Placeholder?
  {
    hide Stands, PatternText;
    var rest := pieces[1..];
    assert forall i :: 0 <= i < |rest| ==> rest[i] == pieces[i + 1] && parts[1..][i] == parts[i + 1];
  }

  /** A placeholder starts with a brace that no second one follows. */
  lemma PlaceholderStarts(piece: Piece, part: Part, rest: string)
    requires piece.Placeholder? && Stands(piece, part)
    ensures var s := Spelled(piece.before) + (NameOf(part.field) + rest); s != "" && s[0] != '{'
  {
    hide NameOf, Spelled, Doubled;
    NameIsFound(part.field);
    if piece.before == [] {
      NothingSpelled();
      assert "" + (NameOf(part.field) + rest) == NameOf(part.field) + rest;
      assert (NameOf(part.field) + rest)[0] == NameOf(part.field)[0];
    } else {
      FirstToken(piece.before, NameOf(part.field) + rest);
    }
  }

  /** Pieces are read one by one, after literal text 'text'. */
  lemma {:induction false} PiecesRead(pieces: seq<Piece>, parts: seq<Part>, size: nat, text: string)
    requires SpellsPattern(PatternText(pieces), pieces, parts) && |PatternText(pieces)| <= size
    requires text == "" || pieces == [] || pieces[0].Placeholder?
    ensures ParseText(PatternText(pieces), size, text) == Ok(Flushed(text) + parts)
    decreases |pieces|
  {
    hide ParseText, ParseInside, SpellsPattern, Doubled, Flushed, Spelled, NameOf, AffixOf, SpellsWidth, AreTokens, QuotesApart;
    if pieces == [] {
      EndStep(size, text);
      assert parts == [] by { NoParts(parts); }
      assert Flushed(text) + parts == Flushed(text);
    } else {
      RestSpelled(pieces, parts);
      var piece, rest := pieces[0], PatternText(pieces[1..]);
      assert [parts[0]] + parts[1..] == parts;
      if piece.Literal? {
        if pieces[1..] != [] {
          StartsWithBrace(pieces[1..], parts[1..]);
        }
        TextParses(piece.text, "", rest, size);
        assert "" + piece.text == piece.text;
        PiecesRead(pieces[1..], parts[1..], size, piece.text);
        OnePart(piece.text, parts);
      } else {
        PiecesRead(pieces[1..], parts[1..], size, "");
        NothingFlushed(parts[1..]);
        StartsWithBrace(pieces, parts);
        var s := PatternText(pieces);
        assert SpellsPart(s[1..], piece.before, piece.width, piece.after, piece.part, rest);
        PlaceholderReads(s[1..], size, size - |s|, piece.before, piece.width, piece.after, piece.part, rest);
        BraceStep(s, size, text, piece.part, rest);
        Associates(Flushed(text), [piece.part], parts[1..]);
      }
    }
  }

  lemma NoParts(parts: seq<Part>)
    requires SpellsPattern("", [], parts)
    ensures parts == []
  {
  }

  lemma OnePart(text: string, parts: seq<Part>)
    requires text != "" && parts != [] && parts[0] == Part(Text, 0, text, "")
    ensures Flushed(text) + parts[1..] == Flushed("") + parts
  {
  }

  lemma StartsWithBrace(pieces: seq<Piece>, parts: seq<Part>)
    requires SpellsPattern(PatternText(pieces), pieces, parts) && pieces != [] && pieces[0].Placeholder?
    ensures var s := PatternText(pieces); |s| > 1 && s[0] == '{' && s[1] != '{'
  {
    hide Spelled, NameOf, Doubled;
    RestSpelled(pieces, parts);
    var piece := pieces[0];
    PlaceholderStarts(piece, parts[0], piece.width + (Spelled(piece.after) + ("}" + PatternText(pieces[1..]))));
  }

  /** So the parser accepts a pattern with these parts exactly if it consists of literal texts, with their braces doubled,
      and placeholders that stand for these parts. */
  lemma PatternIsSpelled(pattern: string, parts: seq<Part>)
    ensures Parse(pattern) == Ok(parts) <==> exists pieces :: SpellsPattern(pattern, pieces, parts)
  {
    hide ParseText, SpellsPattern;
    if Parse(pattern) == Ok(parts) {
      var pieces := TextMeans(pattern, |pattern|, "");
      NothingToSpell();
      assert Doubled("", true) + pattern == pattern;
    }
    if exists pieces :: SpellsPattern(pattern, pieces, parts) {
      var pieces :| SpellsPattern(pattern, pieces, parts);
      assert pattern == PatternText(pieces) by { SpelledIs(pattern, pieces, parts); }
      PiecesRead(pieces, parts, |pattern|, "");
      NothingFlushed(parts);
    }
  }

  lemma SpelledIs(pattern: string, pieces: seq<Piece>, parts: seq<Part>)
    requires SpellsPattern(pattern, pieces, parts)
    ensures pattern == PatternText(pieces)
  {
  }
}
