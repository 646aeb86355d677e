/** The fixed buffer a crash line is built in: what doesn't fit is cut, but never inside an escape, a character or a
    rewritten line break. */
module CrashText {
  import opened Unicode
  import opened Words
  import opened Json
  import opened JsonPieces
  import opened Sequences
  import M = Multiline

  const CAPACITY: nat := 1024

  function Min(a: nat, b: nat): nat {
    if a <= b then a else b
  }

  function Minus(a: nat, b: nat): nat {
    if a > b then a - b else 0
  }

  // ---- What each operation leaves --------------------------------------------------

  function Appended(c: seq<byte>, t: seq<byte>): (r: seq<byte>)
    requires |c| <= CAPACITY
    ensures |c| <= |r| <= CAPACITY
  {
    c + t[..Min(|t|, CAPACITY - |c|)]
  }

  /** The closing quote and 'reserved' bytes stay free after the text. */
  function QuotedAppended(c: seq<byte>, t: seq<byte>, reserved: nat): (r: seq<byte>)
    requires |c| <= CAPACITY
    ensures |c| <= |r| <= CAPACITY
  {
    var begun := Appended(c, [QUOTE]);
    Appended(begun + EscapedWithin(t, Minus(Minus(CAPACITY, reserved + 1), |begun|)), [QUOTE])
  }

  function MultilineAppended(c: seq<byte>, t: seq<byte>, mode: M.Mode, ending: M.Ending, reserved: nat): (r: seq<byte>)
    requires |c| <= CAPACITY
    ensures |c| <= |r| <= CAPACITY
  {
    c + M.RewrittenWithin(t, mode, ending, Minus(Minus(CAPACITY, reserved), |c|))
  }

  function Digits(n: nat): (digits: seq<byte>)
    ensures digits != []
  {
    if n < 10 then [0x30 + n] else Digits(n / 10) + [0x30 + n % 10]
  }

  /** The number that digits stand for. */
  function ValueOf(digits: seq<byte>): int {
    if digits == [] then 0 else 10 * ValueOf(digits[..|digits| - 1]) + (digits[|digits| - 1] as int - 0x30)
  }

  /** The decimal digits of a number, without a zero before them. */
  lemma {:induction false} DigitsAreDecimal(n: nat)
    ensures ValueOf(Digits(n)) == n && (n > 0 ==> Digits(n)[0] != 0x30) && (n == 0 ==> Digits(n) == Ascii("0"))
    ensures forall i :: 0 <= i < |Digits(n)| ==> 0x30 <= Digits(n)[i] <= 0x39
  {
    if n >= 10 {
      DigitsAreDecimal(n / 10);
      assert Digits(n)[..|Digits(n)| - 1] == Digits(n / 10);
    }
  }

  function Zeros(n: nat): seq<byte> {
    if n == 0 then [] else [0x30] + Zeros(n - 1)
  }

  /** Padding doesn't change the number. */
  lemma {:induction false} PaddedIsSame(count: nat, digits: seq<byte>)
    ensures |Zeros(count)| == count && ValueOf(Zeros(count) + digits) == ValueOf(digits)
    decreases |digits|, count
  {
    if digits != [] {
      var n := |digits| - 1;
      PaddedIsSame(count, digits[..n]);
      assert (Zeros(count) + digits)[..count + n] == Zeros(count) + digits[..n];
    } else if count > 0 {
      PaddedIsSame(count - 1, []);
      ZerosEnd(count);
      assert Zeros(count) + [] == Zeros(count) && Zeros(count - 1) + [] == Zeros(count - 1);
    }
  }

  lemma {:induction false} ZerosEnd(count: nat)
    requires count > 0
    ensures Zeros(count) == Zeros(count - 1) + [0x30]
  {
    if count > 1 {
      ZerosEnd(count - 1);
    }
  }

  lemma AppendedWhole(c: seq<byte>, t: seq<byte>)
    requires |c| <= CAPACITY
    ensures |c| + |t| <= CAPACITY ==> Appended(c, t) == c + t
    ensures |Appended(c, t)| < CAPACITY ==> Appended(c, t) == c + t
  {
  }

  /** Cutting twice is cutting once. */
  lemma AppendedTwice(c: seq<byte>, t: seq<byte>, u: seq<byte>)
    requires |c| <= CAPACITY
    ensures Appended(Appended(c, t), u) == Appended(c, t + u)
  {
  }

  /** The loop that takes a cut back to the start of a UTF-8 character. */
  method BackToCharacter(t: seq<byte>, room: nat) returns (count: nat)
    requires room < |t|
    ensures count <= room && (count == 0 || !IsTail(t[count]))
    ensures forall i :: count < i <= room ==> IsTail(t[i])
  {
    count := room;
    while count > 0 && t[count] / 0x40 == 2
      invariant count <= room
      invariant forall i :: count < i <= room ==> IsTail(t[i])
    {
      count := count - 1;
    }
  }

  class TCrashText {
    const text: array<byte>
    var size: nat

    ghost predicate Valid()
      reads this
    {
      text.Length == CAPACITY && size <= CAPACITY
    }

    ghost function Contents(): (c: seq<byte>)
      requires Valid()
      reads this, text
      ensures |c| <= CAPACITY
    {
      text[..size]
    }

    constructor ()
      ensures Valid() && fresh(text) && Contents() == []
    {
      text := new byte[CAPACITY];
      size := 0;
    }

    method Append(t: seq<byte>)
      requires Valid()
      modifies this, text
      ensures Valid() && Contents() == Appended(old(Contents()), t)
    {
      var count := Min(|t|, CAPACITY - size);
      forall i | 0 <= i < count {
        text[size + i] := t[i];
      }
      size := size + count;
    }

    method AppendDecimal(value: nat, minDigits: nat)
      requires Valid()
      modifies this, text
      ensures Valid() && Contents() == Appended(old(Contents()), Zeros(Minus(minDigits, |Digits(value)|)) + Digits(value))
    {
      var digits := Digits(value);
      var padding := |digits|;
      ghost var before := Contents();
      while padding < minDigits
        invariant Valid() && padding >= |digits|
        invariant Appended(Contents(), Zeros(Minus(minDigits, padding))) == Appended(before, Zeros(Minus(minDigits, |digits|)))
      {
        AppendedTwice(Contents(), [0x30], Zeros(minDigits - padding - 1));
        Append([0x30]);
        padding := padding + 1;
      }
      AppendedTwice(before, Zeros(Minus(minDigits, |digits|)), digits);
      assert Zeros(0) == [];
      Append(digits);
    }

    method AppendJSONString(t: seq<byte>, reserved: nat)
      requires Valid()
      modifies this, text
      ensures Valid() && Contents() == QuotedAppended(old(Contents()), t, reserved)
    {
      hide EscapedWithin, Appended;
      var limit := CAPACITY - Min(CAPACITY, reserved + 1);
      Append([QUOTE]);
      assert t[0..] == t;
      AppendEscaped(t, limit);
      Append([QUOTE]);
    }

    /** As much of the escaped text as leaves the line within 'limit' bytes. */
    method AppendEscaped(t: seq<byte>, limit: nat)
      requires Valid() && limit <= CAPACITY
      modifies this, text
      ensures Valid() && Contents() == old(Contents()) + EscapedWithin(t, Minus(limit, |old(Contents())|))
    {
      hide EscapedWithin, IsRun, EscapedUnit, UnitLength, Appended;
      var index := 0;
      ghost var whole := Contents() + EscapedWithin(t, Minus(limit, size));
      assert t[0..] == t;
      while index < |t|
        invariant Valid() && index <= |t| && Contents() + EscapedWithin(t[index..], Minus(limit, size)) == whole
        decreases |t| - index
      {
        var piece, next := NextJSONPiece(t, index);
        var room := if limit > size then limit - size else 0;
        if |piece.text| <= room {
          PieceFits(Contents(), t, index, piece, next, room);
          AppendedWhole(Contents(), piece.text);
          Append(piece.text);
          index := next;
        } else {
          if piece.isEscape {
            EscapeIsLeftOut(t, index, piece, room);
          } else {
            var count := BackToCharacter(piece.text, room);
            PieceIsCut(t, index, piece, next, room, count);
            AppendedWhole(Contents(), piece.text[..count]);
            Append(piece.text[..count]);
          }
          return;
        }
      }
      NothingLeft(t, index);
    }

    method AppendMultiline(t: seq<byte>, mode: M.Mode, ending: M.Ending, reserved: nat)
      requires Valid()
      modifies this, text
      ensures Valid() && Contents() == MultilineAppended(old(Contents()), t, mode, ending, reserved)
    {
      hide M.RewrittenWithin, M.IsPiece, Appended;
      var limit := CAPACITY - Min(CAPACITY, reserved);
      var index := 0;
      ghost var whole := Contents() + M.RewrittenWithin(t, mode, ending, Minus(limit, size));
      assert t[0..] == t;
      while index < |t|
        invariant Valid() && index <= |t|
        invariant Contents() + M.RewrittenWithin(t[index..], mode, ending, Minus(limit, size)) == whole
        decreases |t| - index
      {
        var piece, next := M.NextMultilinePiece(t, index, mode, ending);
        var room := if limit > size then limit - size else 0;
        MultilineFits(Contents(), t, index, piece, next, mode, ending, room);
        if |piece.text| <= room {
          AppendedWhole(Contents(), piece.text);
          Append(piece.text);
          index := next;
        } else {
          if !piece.isLineBreak {
            AppendedWhole(Contents(), piece.text[..room]);
            Append(piece.text[..room]);
          }
          assert Contents() == whole;
          break;
        }
      }
      NothingLeftToRewrite(t, index, mode, ending);
    }

    method Truncate(newSize: nat)
      requires Valid()
      modifies this
      ensures Valid() && Contents() == old(Contents())[..Min(|old(Contents())|, newSize)]
    {
      size := Min(size, newSize);
    }
  }

  // ---- Pieces against the whole -------------------------------------------------------

  lemma NothingLeft(t: seq<byte>, index: nat)
    ensures forall room: nat :: index == |t| ==> EscapedWithin(t[index..], room) == []
  {
  }

  lemma NothingLeftToRewrite(t: seq<byte>, index: nat, mode: M.Mode, ending: M.Ending)
    ensures forall room: nat :: index == |t| ==> M.RewrittenWithin(t[index..], mode, ending, room) == []
  {
  }

  lemma PieceFits(c: seq<byte>, t: seq<byte>, index: nat, piece: Piece, next: nat, room: nat)
    requires index < next <= |t| && |piece.text| <= room
    requires !piece.isEscape ==> piece.text == t[index..next] && IsRun(t[index..], next - index)
    requires piece.isEscape ==> piece.text == EscapedUnit(t[index..]) && next == index + UnitLength(t[index..])
    ensures c + EscapedWithin(t[index..], room) == (c + piece.text) + EscapedWithin(t[next..], room - |piece.text|)
  {
    hide EscapedUnit, UnitLength, IsRun;
    var rest, n := t[index..], next - index;
    SlicesMeet(t, index, next);
    assert rest[..n] == t[index..next];
    if !piece.isEscape {
      RunFits(rest, n, room);
    }
    Associates(c, piece.text, EscapedWithin(t[next..], room - |piece.text|));
  }

  lemma EscapeIsLeftOut(t: seq<byte>, index: nat, piece: Piece, room: nat)
    requires index < |t| && piece.text == EscapedUnit(t[index..]) && |piece.text| > room
    ensures EscapedWithin(t[index..], room) == []
  {
  }

  lemma PieceIsCut(t: seq<byte>, index: nat, piece: Piece, next: nat, room: nat, count: nat)
    requires index < next <= |t| && !piece.isEscape && piece.text == t[index..next] && IsRun(t[index..], next - index)
    requires count <= room < |piece.text| && (count == 0 || !IsTail(piece.text[count]))
    requires forall i :: count < i <= room ==> IsTail(piece.text[i])
    ensures EscapedWithin(t[index..], room) == piece.text[..count]
  {
    hide EscapedWithin, IsRun;
    var rest, n := t[index..], next - index;
    assert forall i :: 0 <= i < n ==> rest[i] == piece.text[i];
    RunIsCut(rest, n, room, count);
    assert rest[..count] == piece.text[..count];
  }

  lemma MultilineFits(c: seq<byte>, t: seq<byte>, index: nat, piece: M.Piece, next: nat, mode: M.Mode, ending: M.Ending, room: nat)
    requires index < |t| && M.IsPiece(t, index, piece, next, mode, ending)
    ensures index < next <= |t|
    ensures var within := M.RewrittenWithin(t[index..], mode, ending, room);
      if |piece.text| <= room then
        c + within == (c + piece.text) + M.RewrittenWithin(t[next..], mode, ending, room - |piece.text|)
      else within == if piece.isLineBreak then [] else piece.text[..room]
  {
    hide M.StartsBreak, M.RewrittenBreak, M.BreakLength, M.IsRun;
    var rest, n := t[index..], next - index;
    SlicesMeet(t, index, next);
    if piece.isLineBreak {
      BreakFits(rest, mode, ending, room);
    } else {
      assert rest[..n] == t[index..next];
      hide M.RewrittenWithin;
      if n <= room {
        M.RunFits(rest, n, mode, ending, room);
      } else {
        M.RunIsCut(rest, n, mode, ending, room);
        assert rest[..room] == piece.text[..room];
      }
    }
    if |piece.text| <= room {
      Associates(c, piece.text, M.RewrittenWithin(t[next..], mode, ending, room - |piece.text|));
    }
  }

  lemma BreakFits(t: seq<byte>, mode: M.Mode, ending: M.Ending, room: nat)
    requires M.StartsBreak(t, mode)
    ensures var start := M.RewrittenBreak(t, mode, ending);
      M.RewrittenWithin(t, mode, ending, room)
      == if |start| > room then [] else start + M.RewrittenWithin(t[M.BreakLength(t, mode)..], mode, ending, room - |start|)
  {
    hide M.StartsBreak, M.RewrittenBreak, M.BreakLength;
  }
}
