/** Escaping a text piece by piece: runs that stand as they are, skipped eight bytes at a time, and single escapes. */
module JsonPieces {
  import opened Unicode
  import opened Transcoding
  import opened Words
  import opened Json
  import opened Sequences

  datatype Piece = Piece(text: seq<byte>, isEscape: bool)

  /** The first 'n' bytes of 'text' are whole characters that stand in a JSON string as they are. */
  predicate IsRun(text: seq<byte>, n: nat)
    decreases n
  {
    n <= |text| &&
    (n == 0 || (IsKept(text) && UnitLength(text) <= n && IsRun(text[UnitLength(text)..], n - UnitLength(text))))
  }

  /** What of the escaped text fits into 'room' bytes: whole characters and whole escapes. */
  function EscapedWithin(text: seq<byte>, room: nat): (escaped: seq<byte>)
    ensures |escaped| <= room
    decreases |text|
  {
    if text == [] || |EscapedUnit(text)| > room then []
    else EscapedUnit(text) + EscapedWithin(text[UnitLength(text)..], room - |EscapedUnit(text)|)
  }

  /** How many of the text's characters that is. */
  function CharactersWithin(text: seq<byte>, room: nat): (count: nat)
    ensures count <= |Scalars8(text)|
    decreases |text|
  {
    if text == [] || |EscapedUnit(text)| > room then 0
    else
      UnitIsDecoded(text);
      1 + CharactersWithin(text[UnitLength(text)..], room - |EscapedUnit(text)|)
  }

  // ---- Runs ---------------------------------------------------------------------------

  lemma KeptUnit(text: seq<byte>)
    requires text != [] && IsKept(text)
    ensures EscapedUnit(text) == text[..UnitLength(text)]
  {
  }

  lemma {:induction false} RunExtends(text: seq<byte>, n: nat)
    requires n < |text| && IsRun(text, n) && IsKept(text[n..])
    ensures IsRun(text, n + UnitLength(text[n..]))
    decreases n
  {
    hide IsKept, UnitLength;
    if n == 0 {
      assert text[0..] == text;
    } else {
      var u := UnitLength(text);
      SlicesMeet(text, u, n);
      RunExtends(text[u..], n - u);
    }
  }

  lemma {:induction false} PlainRunExtends(text: seq<byte>, n: nat, count: nat)
    requires n + count <= |text| && IsRun(text, n)
    requires forall i :: n <= i < n + count ==> IsPlainJSONCharacter(text[i])
    ensures IsRun(text, n + count)
    decreases count
  {
    if count > 0 {
      RunExtends(text, n);
      PlainRunExtends(text, n + 1, count - 1);
    }
  }

  lemma PlainWordExtends(text: seq<byte>, n: nat, word: seq<byte>)
    requires n + 8 <= |text| && IsRun(text, n) && word == text[n..n + 8] && IsPlainJSONWord(word)
    ensures IsRun(text, n + 8)
  {
    IsPlainJSONWordIsExact(word);
    forall i | n <= i < n + 8 ensures IsPlainJSONCharacter(text[i]) {
      assert word[i - n] == text[i];
    }
    PlainRunExtends(text, n, 8);
  }

  lemma EmptyRun(text: seq<byte>)
    ensures IsRun(text, 0)
  {
  }

  /** A run is written as it is. */
  lemma {:induction false} RunIsKept(text: seq<byte>, n: nat)
    requires IsRun(text, n)
    ensures Escaped(text) == text[..n] + Escaped(text[n..])
    decreases n
  {
    hide IsKept, UnitLength, EscapedUnit;
    if n > 0 {
      var u := UnitLength(text);
      RunIsKept(text[u..], n - u);
      SlicesMeet(text, u, n);
      KeptUnit(text);
      Associates(text[..u], text[u..][..n - u], Escaped(text[n..]));
    } else {
      assert text[0..] == text;
    }
  }

  lemma {:induction false} RunFits(text: seq<byte>, n: nat, room: nat)
    requires IsRun(text, n) && n <= room
    ensures EscapedWithin(text, room) == text[..n] + EscapedWithin(text[n..], room - n)
    decreases n
  {
    hide IsKept, UnitLength, EscapedUnit;
    if n > 0 {
      var u := UnitLength(text);
      RunFits(text[u..], n - u, room - u);
      SlicesMeet(text, u, n);
      KeptUnit(text);
      Associates(text[..u], text[u..][..n - u], EscapedWithin(text[n..], room - n));
    } else {
      assert text[0..] == text;
    }
  }

  /** A kept character is a lead byte and tails. */
  lemma TailsOfKept(text: seq<byte>)
    requires text != [] && IsKept(text)
    ensures !IsTail(text[0]) && forall i :: 1 <= i < UnitLength(text) ==> IsTail(text[i])
  {
    if text[0] >= 0x80 {
      var n := CharacterLength(text);
      var bytes := text[..n];
      assert IsCharacter(bytes) && forall i :: 0 <= i < n ==> bytes[i] == text[i];
    }
  }

  /** The first character of a run fits whole, or the cut is in front of it. */
  lemma CutIsBetween(text: seq<byte>, n: nat, room: nat, cut: nat)
    requires IsRun(text, n) && cut <= room < n
    requires cut == 0 || !IsTail(text[cut])
    requires forall i :: cut < i <= room ==> IsTail(text[i])
    ensures if cut == 0 then room < UnitLength(text) else UnitLength(text) <= cut
  {
    var u := UnitLength(text);
    TailsOfKept(text);
    if cut == 0 && u <= room {
      TailsOfKept(text[u..]);
    }
  }

  /** A run that doesn't fit is cut before the last byte within 'room' that isn't a tail. */
  lemma {:induction false} RunIsCut(text: seq<byte>, n: nat, room: nat, cut: nat)
    requires IsRun(text, n) && cut <= room < n
    requires cut == 0 || !IsTail(text[cut])
    requires forall i :: cut < i <= room ==> IsTail(text[i])
    ensures EscapedWithin(text, room) == text[..cut]
    decreases n
  {
    hide IsKept, UnitLength, EscapedUnit;
    var u := UnitLength(text);
    CutIsBetween(text, n, room, cut);
    KeptUnit(text);
    if cut > 0 {
      var rest := text[u..];
      assert forall i {:trigger rest[i]} :: 0 <= i < |rest| ==> rest[i] == text[u + i];
      RunIsCut(rest, n - u, room - u, cut - u);
      SlicesMeet(text, u, cut);
    }
  }

  // ---- The loops ------------------------------------------------------------------------

  method NextJSONPiece(text: seq<byte>, index: nat) returns (piece: Piece, next: nat)
    requires index <= |text|
    ensures index <= next <= |text| && (index < |text| ==> index < next)
    ensures !piece.isEscape ==> piece.text == text[index..next] && IsRun(text[index..], next - index)
    ensures piece.isEscape ==> index < |text| && !IsKept(text[index..]) && piece.text == EscapedUnit(text[index..]) &&
                               next == index + UnitLength(text[index..])
  {
    hide CharacterLength, SubpartLength, Escape, EscapedUnit, IsPlainJSONWord, IsRun;
    ghost var rest := text[index..];
    var invalidLength := 0;
    EmptyRun(rest);
    next := index;
    while next < |text|
      invariant index <= next <= |text| && IsRun(rest, next - index) && invalidLength == 0
      decreases |text| - next
    {
      assert rest[next - index..] == text[next..];
      if |text| - next >= 8 && IsPlainJSONWord(text[next..next + 8]) {
        PlainWordExtends(rest, next - index, text[next..next + 8]);
        next := next + 8;
      } else if IsPlainJSONCharacter(text[next]) {
        RunExtends(rest, next - index);
        next := next + 1;
      } else if text[next] < 0x80 {
        break;
      } else {
        var length;
        length, invalidLength := MeasureUTF8Sequence(text, next);
        if length == 0 {
          break;
        }
        RunExtends(rest, next - index);
        invalidLength := 0;
        next := next + length;
      }
    }
    if next > index {
      return Piece(text[index..next], false), next;
    }
    if next >= |text| {
      return Piece([], false), next;
    }
    assert rest[0..] == rest;
    ReplacedUnit(rest);
    if invalidLength > 0 {
      return Piece(U_FFFD, true), next + invalidLength;
    }
    piece := WriteEscape(text[next]);
    next := next + 1;
  }

  lemma ReplacedUnit(text: seq<byte>)
    requires text != [] && !IsKept(text)
    ensures EscapedUnit(text) == if text[0] < 0x80 then Escape(text[0]) else U_FFFD
  {
  }

  /** The switch over the characters that need an escape: whatever follows, a strict reader takes it as the character. */
  method WriteEscape(character: byte) returns (piece: Piece)
    requires character < 0x80
    ensures piece.isEscape && piece.text != []
    ensures forall rest {:trigger ReadOne(piece.text + rest)} :: ReadOne(piece.text + rest) == Read([character], rest)
    ensures forall i :: 0 <= i < |piece.text| ==> 0x20 <= piece.text[i] < 0x7F
    ensures piece.text == Escape(character)
  {
    hide ReadOne;
    forall rest ensures ReadOne(Escape(character) + rest) == Read([character], rest) {
      ReadsEscape(character, rest);
    }
    if character == QUOTE || character == BACKSLASH {
      piece := Piece([BACKSLASH, character], true);
    } else if character == 0x08 {
      piece := Piece([BACKSLASH, 0x62], true);
    } else if character == 0x0C {
      piece := Piece([BACKSLASH, 0x66], true);
    } else if character == LF {
      piece := Piece([BACKSLASH, 0x6E], true);
    } else if character == CR {
      piece := Piece([BACKSLASH, 0x72], true);
    } else if character == 0x09 {
      piece := Piece([BACKSLASH, 0x74], true);
    } else {
      piece := Piece([BACKSLASH, 0x75, 0x30, 0x30, HexDigit(character / 0x10), HexDigit(character % 0x10)], true);
    }
  }

  /** One piece more of the escaped text. */
  lemma PieceIsNext(text: seq<byte>, index: nat, piece: Piece, next: nat)
    requires index < next <= |text|
    requires !piece.isEscape ==> piece.text == text[index..next] && IsRun(text[index..], next - index)
    requires piece.isEscape ==> piece.text == EscapedUnit(text[index..]) && next == index + UnitLength(text[index..])
    ensures Escaped(text[index..]) == piece.text + Escaped(text[next..])
  {
    hide IsKept, UnitLength, EscapedUnit;
    var rest, n := text[index..], next - index;
    assert rest[..n] == text[index..next];
    SlicesMeet(text, index, next);
    if !piece.isEscape {
      RunIsKept(rest, n);
    }
  }

  /** The text as a JSON string: quotes around its escaped form, which a strict reader takes back (Json.ReadsEscaped). */
  method AppendString(output: seq<byte>, text: seq<byte>) returns (result: seq<byte>)
    ensures result == output + [QUOTE] + Escaped(text) + [QUOTE]
  {
    result := output + [QUOTE];
    var index := 0;
    ghost var done: seq<byte> := [];
    assert text[0..] == text;
    while index < |text|
      invariant index <= |text| && result == output + [QUOTE] + done
      invariant done + Escaped(text[index..]) == Escaped(text)
      decreases |text| - index
    {
      var piece, next := NextJSONPiece(text, index);
      PieceIsNext(text, index, piece, next);
      Associates(done, piece.text, Escaped(text[next..]));
      Associates(output + [QUOTE], done, piece.text);
      done := done + piece.text;
      result := result + piece.text;
      index := next;
    }
    assert text[|text|..] == [];
    result := result + [QUOTE];
  }

  lemma ReadsNothing(rest: seq<byte>)
    ensures ReadString([] + [QUOTE] + rest) == Read([], rest)
  {
    assert [] + [QUOTE] + rest == [QUOTE] + rest && ([QUOTE] + rest)[1..] == rest;
  }

  lemma FirstFits(text: seq<byte>, room: nat)
    requires text != [] && |EscapedUnit(text)| <= room
    ensures var later := text[UnitLength(text)..];
      && EscapedWithin(text, room) == EscapedUnit(text) + EscapedWithin(later, room - |EscapedUnit(text)|)
      && CharactersWithin(text, room) == 1 + CharactersWithin(later, room - |EscapedUnit(text)|)
      && UnitLength(text) == Decode8(text).length
  {
    UnitIsDecoded(text);
    hide EscapedUnit, Decode8;
  }

  /** A unit that reads as one character, in front of what reads on. */
  lemma ReadsFirst(escaped: seq<byte>, c: character, more: seq<byte>, read: Read)
    requires escaped != [] && escaped[0] != QUOTE && ReadOne(escaped + more) == Read([c], more)
    requires ReadString(more) == read && read.Read?
    ensures ReadString(escaped + more) == Read([c] + read.value, read.rest)
  {
    hide ReadOne;
  }

  /** A strict reader takes what fits as the text's first characters. */
  lemma {:induction false} ReadsEscapedWithin(text: seq<byte>, room: nat, rest: seq<byte>)
    ensures ReadString(EscapedWithin(text, room) + [QUOTE] + rest)
         == Read(Scalars8(text)[..CharactersWithin(text, room)], rest)
    decreases |text|
  {
    hide IsKept, UnitLength, EscapedUnit, ReadOne, ReadString, Decode8;
    if text == [] || |EscapedUnit(text)| > room {
      ReadsNothing(rest);
    } else {
      FirstFits(text, room);
      hide EscapedWithin, CharactersWithin, Scalars8;
      var escaped, n := EscapedUnit(text), UnitLength(text);
      var later, count := EscapedWithin(text[n..], room - |escaped|), CharactersWithin(text[n..], room - |escaped|);
      var more := later + [QUOTE] + rest;
      ReadsUnit(text, more);
      ReadsEscapedWithin(text[n..], room - |escaped|, rest);
      FourJoin(escaped, later, [QUOTE], rest);
      ReadsFirst(escaped, Decode8(text).character, more, Read(Scalars8(text[n..])[..count], rest));
      FirstCharacters(text, count);
    }
  }

  lemma FourJoin(a: seq<byte>, b: seq<byte>, c: seq<byte>, d: seq<byte>)
    ensures (a + b) + c + d == a + (b + c + d)
  {
  }

  lemma FirstCharacters(text: seq<byte>, count: nat)
    requires text != [] && count <= |Scalars8(text[Decode8(text).length..])|
    ensures Scalars8(text)[..count + 1] == [Decode8(text).character] + Scalars8(text[Decode8(text).length..])[..count]
  {
  }

  /** Nothing is left out that would fit. */
  lemma {:induction false} AllFits(text: seq<byte>, room: nat)
    ensures EscapedWithin(text, room) <= Escaped(text)
    ensures CharactersWithin(text, room) == |Scalars8(text)| <==> |Escaped(text)| <= room
    decreases |text|
  {
    hide IsKept, UnitLength, EscapedUnit, Decode8;
    if text != [] {
      UnitIsDecoded(text);
      if |EscapedUnit(text)| <= room {
        FirstFits(text, room);
        AllFits(text[UnitLength(text)..], room - |EscapedUnit(text)|);
      }
    }
  }

  /** What fits ends between two characters, and the next one doesn't fit. */
  lemma {:induction false} WithinIsMost(text: seq<byte>, room: nat) returns (k: nat)
    ensures k <= |text| && Escaped(text) == EscapedWithin(text, room) + Escaped(text[k..])
    ensures k == |text| || |EscapedWithin(text, room)| + |EscapedUnit(text[k..])| > room
    decreases |text|
  {
    hide EscapedUnit, UnitLength;
    if text == [] || |EscapedUnit(text)| > room {
      k := 0;
      assert text[0..] == text;
    } else {
      var n, unit := UnitLength(text), EscapedUnit(text);
      k := WithinIsMost(text[n..], room - |unit|);
      k := k + n;
      SlicesMeet(text, n, k);
      Associates(unit, EscapedWithin(text[n..], room - |unit|), Escaped(text[k..]));
    }
  }
}
