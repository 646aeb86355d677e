/** Line breaks inside a log line: kept, indented or escaped, whole or in as much room as there is. */
module Multiline {
  import opened Unicode
  import opened Words
  import opened Sequences

  datatype Mode = Preserve | Indent | Escape
  datatype Ending = OnlyLF | CRLF

  const SPACE: byte := 0x20
  const MARKER: seq<byte> := [0x20, 0x20, 0x20, 0x20, 0x7C]

  function EndingBytes(ending: Ending): seq<byte> {
    if ending.CRLF? then [CR, LF] else [LF]
  }

  // ---- What a text is rewritten to ---------------------------------------------

  /** 'text' starts with a line break that the mode rewrites; Indent leaves a lone CR as it is. */
  predicate StartsBreak(text: seq<byte>, mode: Mode) {
    text != [] && mode != Preserve &&
    (text[0] == LF || (text[0] == CR && (mode == Escape || (|text| > 1 && text[1] == LF))))
  }

  function BreakLength(text: seq<byte>, mode: Mode): (length: nat)
    requires StartsBreak(text, mode)
    ensures 1 <= length <= |text|
  {
    if mode == Indent && text[0] == CR then 2 else 1
  }

  function RewrittenBreak(text: seq<byte>, mode: Mode, ending: Ending): (rewritten: seq<byte>)
    requires StartsBreak(text, mode)
    ensures rewritten != []
  {
    if mode == Escape then [BACKSLASH, if text[0] == CR then 0x72 else 0x6E]
    else
      var rest := text[BreakLength(text, mode)..];
      EndingBytes(ending) + MARKER + (if rest == [] || StartsBreak(rest, mode) then [] else [SPACE])
  }

  /** The front of 'text' as it is rewritten: a break or one byte. */
  function NextUnit(text: seq<byte>, mode: Mode, ending: Ending): (rewritten: seq<byte>)
    requires text != []
    ensures rewritten != []
  {
    if StartsBreak(text, mode) then RewrittenBreak(text, mode, ending) else [text[0]]
  }

  function NextLength(text: seq<byte>, mode: Mode): (length: nat)
    requires text != []
    ensures 1 <= length <= |text|
  {
    if StartsBreak(text, mode) then BreakLength(text, mode) else 1
  }

  function Rewritten(text: seq<byte>, mode: Mode, ending: Ending): seq<byte> {
    if text == [] then []
    else NextUnit(text, mode, ending) + Rewritten(text[NextLength(text, mode)..], mode, ending)
  }

  /** What of the rewritten text fits into 'room' bytes, without a part of a rewritten break. */
  function RewrittenWithin(text: seq<byte>, mode: Mode, ending: Ending, room: nat): (rewritten: seq<byte>)
    ensures |rewritten| <= room
    decreases |text|
  {
    if text == [] || |NextUnit(text, mode, ending)| > room then []
    else
      var unit := NextUnit(text, mode, ending);
      unit + RewrittenWithin(text[NextLength(text, mode)..], mode, ending, room - |unit|)
  }

  // ---- What that means ------------------------------------------------------------

  /** Escaped text is one line. */
  lemma {:induction false} EscapedIsOneLine(text: seq<byte>, ending: Ending)
    ensures forall i :: 0 <= i < |Rewritten(text, Escape, ending)| ==>
              Rewritten(text, Escape, ending)[i] != CR && Rewritten(text, Escape, ending)[i] != LF
  {
    if text != [] {
      EscapedIsOneLine(text[1..], ending);
    }
  }

  /** It is escaped byte by byte. */
  lemma {:induction false} EscapedJoins(a: seq<byte>, b: seq<byte>, ending: Ending)
    ensures Rewritten(a + b, Escape, ending) == Rewritten(a, Escape, ending) + Rewritten(b, Escape, ending)
    decreases |a|
  {
    hide Rewritten;
    if a == [] {
      assert a + b == b;
      NothingRewritten(ending);
      assert [] + Rewritten(b, Escape, ending) == Rewritten(b, Escape, ending);
    } else {
      assert (a + b)[1..] == a[1..] + b;
      EscapedJoins(a[1..], b, ending);
      EscapedFirst(a, ending);
      EscapedFirst(a + b, ending);
      Associates(EscapeOf(a[0]), Rewritten(a[1..], Escape, ending), Rewritten(b, Escape, ending));
    }
  }

  function EscapeOf(b: byte): seq<byte> {
    if b == CR then [BACKSLASH, 0x72] else if b == LF then [BACKSLASH, 0x6E] else [b]
  }

  lemma EscapedFirst(text: seq<byte>, ending: Ending)
    requires text != []
    ensures Rewritten(text, Escape, ending) == EscapeOf(text[0]) + Rewritten(text[1..], Escape, ending)
  {
  }

  lemma NothingRewritten(ending: Ending)
    ensures Rewritten([], Escape, ending) == []
  {
  }

  /** A CR becomes a backslash and an 'r', an LF a backslash and an 'n', and any other byte stays as it is. */
  lemma EscapedByte(b: byte, ending: Ending)
    ensures Rewritten([b], Escape, ending)
         == if b == 0x0D then Ascii("\\r") else if b == 0x0A then Ascii("\\n") else [b]
  {
    assert [b][1..] == [];
  }

  lemma EndingsAndMarker()
    ensures EndingBytes(OnlyLF) == Ascii("\n") && EndingBytes(CRLF) == Ascii("\r\n") && MARKER + [SPACE] == Ascii("    | ")
  {
  }

  /** The lines of a text, which "\n" and "\r\n" separate. */
  function Lines(text: seq<byte>): (lines: seq<seq<byte>>)
    ensures lines != []
  {
    if text == [] then [[]]
    else if StartsBreak(text, Indent) then [[]] + Lines(text[BreakLength(text, Indent)..])
    else
      var more := Lines(text[1..]);
      [[text[0]] + more[0]] + more[1..]
  }

  /** A line after the first: the line ending and the marker, whose space an empty line leaves out. */
  function MarkedLine(line: seq<byte>, ending: Ending): seq<byte> {
    EndingBytes(ending) + MARKER + (if line == [] then [] else [SPACE] + line)
  }

  function Marked(lines: seq<seq<byte>>, ending: Ending): seq<byte> {
    if lines == [] then [] else MarkedLine(lines[0], ending) + Marked(lines[1..], ending)
  }

  lemma FirstLineIsEmpty(text: seq<byte>)
    ensures Lines(text)[0] == [] <==> text == [] || StartsBreak(text, Indent)
  {
  }

  lemma BreakMarksNextLine(text: seq<byte>, ending: Ending)
    requires StartsBreak(text, Indent)
    ensures var line := Lines(text[BreakLength(text, Indent)..])[0];
      NextUnit(text, Indent, ending) + line == MarkedLine(line, ending)
  {
    FirstLineIsEmpty(text[BreakLength(text, Indent)..]);
  }

  /** Indenting marks each line after the first. */
  lemma {:induction false} IndentedIsMarked(text: seq<byte>, ending: Ending)
    ensures Rewritten(text, Indent, ending) == Lines(text)[0] + Marked(Lines(text)[1..], ending)
  {
    if text == [] {
    } else if StartsBreak(text, Indent) {
      hide NextUnit, MarkedLine, StartsBreak;
      var rest := text[BreakLength(text, Indent)..];
      var lines := Lines(rest);
      IndentedIsMarked(rest, ending);
      BreakMarksNextLine(text, ending);
      assert Lines(text) == [[]] + lines && Lines(text)[1..] == lines;
      Associates(NextUnit(text, Indent, ending), lines[0], Marked(lines[1..], ending));
    } else {
      hide MarkedLine, StartsBreak, Marked;
      IndentedIsMarked(text[1..], ending);
      assert Lines(text)[1..] == Lines(text[1..])[1..];
      Associates([text[0]], Lines(text[1..])[0], Marked(Lines(text)[1..], ending));
    }
  }

  lemma {:induction false} PreservedIsSame(text: seq<byte>, ending: Ending)
    ensures Rewritten(text, Preserve, ending) == text
  {
    if text != [] {
      PreservedIsSame(text[1..], ending);
    }
  }

  /** What fits is a prefix that ends between two units, and the next unit would not fit. */
  lemma {:induction false} WithinIsPrefix(text: seq<byte>, mode: Mode, ending: Ending, room: nat) returns (k: nat)
    ensures k <= |text|
    ensures Rewritten(text, mode, ending) == RewrittenWithin(text, mode, ending, room) + Rewritten(text[k..], mode, ending)
    ensures k == |text| || |RewrittenWithin(text, mode, ending, room)| + |NextUnit(text[k..], mode, ending)| > room
    decreases |text|
  {
    hide NextUnit, NextLength;
    if text == [] || |NextUnit(text, mode, ending)| > room {
      k := 0;
      assert text[0..] == text;
    } else {
      var n, unit := NextLength(text, mode), NextUnit(text, mode, ending);
      k := WithinIsPrefix(text[n..], mode, ending, room - |unit|);
      k := k + n;
      SlicesMeet(text, n, k);
      Associates(unit, RewrittenWithin(text[n..], mode, ending, room - |unit|), Rewritten(text[k..], mode, ending));
    }
  }

  // ---- The loops ---------------------------------------------------------------------

  datatype Piece = Piece(text: seq<byte>, isLineBreak: bool)

  /** No break is rewritten in the first 'n' bytes. */
  ghost predicate IsRun(text: seq<byte>, n: nat, mode: Mode) {
    n <= |text| && forall i :: 0 <= i < n ==> !StartsBreak(text[i..], mode)
  }

  ghost predicate IsPiece(text: seq<byte>, index: nat, piece: Piece, next: nat, mode: Mode, ending: Ending)
    requires index <= |text|
  {
    var rest := text[index..];
    && index <= next <= |text| && (index < |text| ==> index < next)
    && (if piece.isLineBreak then
          StartsBreak(rest, mode) && piece.text == RewrittenBreak(rest, mode, ending) && next == index + BreakLength(rest, mode)
        else IsRun(rest, next - index, mode) && piece.text == text[index..next])
  }

  lemma RunGoesOn(text: seq<byte>, n: nat, mode: Mode, ending: Ending)
    requires n > 0 && IsRun(text, n, mode)
    ensures IsRun(text[1..], n - 1, mode) && NextUnit(text, mode, ending) == [text[0]] && NextLength(text, mode) == 1
  {
    assert text[0..] == text;
    assert forall i {:trigger text[1..][i..]} :: 0 <= i < n - 1 ==> text[1..][i..] == text[i + 1..];
  }

  lemma {:induction false} RunIsKept(text: seq<byte>, n: nat, mode: Mode, ending: Ending)
    requires IsRun(text, n, mode)
    ensures Rewritten(text, mode, ending) == text[..n] + Rewritten(text[n..], mode, ending)
    decreases n
  {
    hide NextUnit, NextLength, IsRun;
    if n == 0 {
      assert text[0..] == text;
    } else {
      RunGoesOn(text, n, mode, ending);
      RunIsKept(text[1..], n - 1, mode, ending);
      SlicesMeet(text, 1, n);
      Associates(text[..1], text[1..][..n - 1], Rewritten(text[n..], mode, ending));
    }
  }

  /** A run that doesn't fit is cut anywhere. */
  lemma {:induction false} RunIsCut(text: seq<byte>, n: nat, mode: Mode, ending: Ending, room: nat)
    requires IsRun(text, n, mode) && room < n
    ensures RewrittenWithin(text, mode, ending, room) == text[..room]
    decreases n
  {
    hide NextUnit, NextLength, IsRun;
    RunGoesOn(text, n, mode, ending);
    if room > 0 {
      RunIsCut(text[1..], n - 1, mode, ending, room - 1);
      SlicesMeet(text, 1, room);
    }
  }

  lemma {:induction false} RunFits(text: seq<byte>, n: nat, mode: Mode, ending: Ending, room: nat)
    requires IsRun(text, n, mode) && n <= room
    ensures RewrittenWithin(text, mode, ending, room) == text[..n] + RewrittenWithin(text[n..], mode, ending, room - n)
    decreases n
  {
    hide NextUnit, NextLength, IsRun;
    if n == 0 {
      assert text[0..] == text;
    } else {
      RunGoesOn(text, n, mode, ending);
      RunFits(text[1..], n - 1, mode, ending, room - 1);
      SlicesMeet(text, 1, n);
      Associates(text[..1], text[1..][..n - 1], RewrittenWithin(text[n..], mode, ending, room - n));
    }
  }

  /** A break at 'index', as the piece's loop tests it. */
  predicate IsLineBreakAt(text: seq<byte>, position: nat, mode: Mode)
    requires position < |text|
  {
    text[position] == LF ||
    (text[position] == CR && (mode == Escape || (position + 1 < |text| && text[position + 1] == LF)))
  }

  lemma BreakAtIsStart(text: seq<byte>, position: nat, mode: Mode)
    requires position < |text| && mode != Preserve
    ensures IsLineBreakAt(text, position, mode) <==> StartsBreak(text[position..], mode)
  {
  }

  lemma WordHasNoBreak(text: seq<byte>, index: nat, mode: Mode)
    requires index + 8 <= |text| && !HasCROrLF(text[index..index + 8])
    ensures forall i :: index <= i < index + 8 ==> !StartsBreak(text[i..], mode)
  {
    var word := text[index..index + 8];
    HasCROrLFIsExact(word);
    forall i | index <= i < index + 8 ensures !StartsBreak(text[i..], mode) {
      assert text[i..][0] == text[i] == word[i - index];
    }
  }

  /** The line break at 'index', rewritten. */
  method RewriteBreak(text: seq<byte>, index: nat, mode: Mode, ending: Ending) returns (piece: Piece, next: nat)
    requires index < |text| && mode != Preserve && StartsBreak(text[index..], mode)
    ensures piece.isLineBreak && piece.text == RewrittenBreak(text[index..], mode, ending)
    ensures next == index + BreakLength(text[index..], mode)
  {
    ghost var rest := text[index..];
    if mode == Escape {
      return Piece(if text[index] == CR then [BACKSLASH, 0x72] else [BACKSLASH, 0x6E], true), index + 1;
    }
    next := index + if text[index] == CR then 2 else 1;
    assert rest[next - index..] == text[next..];
    var indented := EndingBytes(ending) + MARKER + [SPACE];
    if next < |text| {
      BreakAtIsStart(text, next, mode);
    }
    var isNextLineEmpty := next >= |text| || IsLineBreakAt(text, next, mode);
    piece := Piece(if isNextLineEmpty then indented[..|indented| - 1] else indented, true);
  }

  lemma RunWith(text: seq<byte>, index: nat, n: nat, count: nat, mode: Mode)
    requires index + n + count <= |text| && IsRun(text[index..], n, mode)
    requires forall i :: index + n <= i < index + n + count ==> !StartsBreak(text[i..], mode)
    ensures IsRun(text[index..], n + count, mode)
  {
    hide StartsBreak;
    forall i | n <= i < n + count ensures !StartsBreak(text[index..][i..], mode) {
      assert text[index..][i..] == text[index + i..];
    }
  }

  method NextMultilinePiece(text: seq<byte>, index: nat, mode: Mode, ending: Ending) returns (piece: Piece, next: nat)
    requires index <= |text|
    ensures IsPiece(text, index, piece, next, mode, ending)
  {
    hide IsRun, RewrittenBreak, StartsBreak, IsLineBreakAt, BreakLength;
    if mode == Preserve {
      PreservesAll(text[index..]);
      return Piece(text[index..], false), |text|;
    }
    next := index;
    EmptyRun(text[index..], mode);
    while next < |text|
      invariant index <= next <= |text| && IsRun(text[index..], next - index, mode)
    {
      BreakAtIsStart(text, next, mode);
      if |text| - next >= 8 && !HasCROrLF(text[next..next + 8]) {
        WordHasNoBreak(text, next, mode);
        RunWith(text, index, next - index, 8, mode);
        next := next + 8;
      } else if IsLineBreakAt(text, next, mode) {
        break;
      } else {
        RunWith(text, index, next - index, 1, mode);
        next := next + 1;
      }
    }
    if next > index {
      return Piece(text[index..next], false), next;
    }
    if next >= |text| {
      return Piece([], false), next;
    }
    piece, next := RewriteBreak(text, next, mode, ending);
    BreakTakes(text[index..], mode);
  }

  lemma PreservesAll(text: seq<byte>)
    ensures IsRun(text, |text|, Preserve)
  {
  }

  lemma EmptyRun(text: seq<byte>, mode: Mode)
    ensures IsRun(text, 0, mode)
  {
  }

  lemma BreakTakes(text: seq<byte>, mode: Mode)
    requires StartsBreak(text, mode)
    ensures 0 < BreakLength(text, mode) <= |text|
  {
  }

  lemma PieceIsNext(text: seq<byte>, index: nat, piece: Piece, next: nat, mode: Mode, ending: Ending)
    requires index < |text| && IsPiece(text, index, piece, next, mode, ending)
    ensures Rewritten(text[index..], mode, ending) == piece.text + Rewritten(text[next..], mode, ending)
  {
    hide StartsBreak, RewrittenBreak, IsRun, BreakLength;
    var rest, n := text[index..], next - index;
    SlicesMeet(text, index, next);
    assert rest[..n] == text[index..next];
    if !piece.isLineBreak {
      RunIsKept(rest, n, mode, ending);
    }
  }

  method ApplyMultilineMode(line: seq<byte>, mode: Mode, ending: Ending) returns (rewritten: seq<byte>)
    ensures rewritten == Rewritten(line, mode, ending)
  {
    var first, index := NextMultilinePiece(line, 0, mode, ending);
    assert line[0..] == line && line[|line|..] == [];
    if line != [] {
      PieceIsNext(line, 0, first, index, mode, ending);
    }
    if !first.isLineBreak && index >= |line| {
      return line;
    }
    rewritten := first.text;
    while index < |line|
      invariant index <= |line|
      invariant rewritten + Rewritten(line[index..], mode, ending) == Rewritten(line, mode, ending)
      decreases |line| - index
    {
      var piece, next := NextMultilinePiece(line, index, mode, ending);
      PieceIsNext(line, index, piece, next, mode, ending);
      Associates(rewritten, piece.text, Rewritten(line[next..], mode, ending));
      rewritten := rewritten + piece.text;
      index := next;
    }
  }
}
