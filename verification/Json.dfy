/** JSON strings: what escaping writes, and what a strict reader (section 7 of RFC 8259) reads back. */
module Json {
  import opened Unicode
  import opened Transcoding
  import opened Words

  const U_FFFD: seq<byte> := [0xEF, 0xBF, 0xBD]

  // ---- What a text is escaped to -------------------------------------------------

  function HexDigit(d: nat): byte
    requires d < 16
  {
    if d < 10 then 0x30 + d else 0x61 + (d - 10)
  }

  /** The escape of a quote, a backslash or a control character. */
  function Escape(b: byte): (escape: seq<byte>)
    requires b < 0x80
    ensures 2 <= |escape| <= 6
  {
    if b == QUOTE || b == BACKSLASH then [BACKSLASH, b]
    else if b == 0x08 then [BACKSLASH, 0x62]
    else if b == 0x0C then [BACKSLASH, 0x66]
    else if b == LF then [BACKSLASH, 0x6E]
    else if b == CR then [BACKSLASH, 0x72]
    else if b == 0x09 then [BACKSLASH, 0x74]
    else [BACKSLASH, 0x75, 0x30, 0x30, HexDigit(b / 0x10), HexDigit(b % 0x10)]
  }

  /** How many bytes at the front of 'text' are replaced together: one in ASCII, a character, or an ill-formed subpart. */
  function UnitLength(text: seq<byte>): (length: nat)
    requires text != []
    ensures 1 <= length <= |text|
  {
    if text[0] < 0x80 then 1
    else if CharacterLength(text) > 0 then CharacterLength(text)
    else SubpartLength(text)
  }

  /** The front of 'text' stands in a JSON string as it is. */
  predicate IsKept(text: seq<byte>)
    requires text != []
  {
    if text[0] < 0x80 then IsPlainJSONCharacter(text[0]) else CharacterLength(text) > 0
  }

  function EscapedUnit(text: seq<byte>): (escaped: seq<byte>)
    requires text != []
    ensures escaped != []
  {
    if IsKept(text) then text[..UnitLength(text)]
    else if text[0] < 0x80 then Escape(text[0])
    else U_FFFD
  }

  function Escaped(text: seq<byte>): seq<byte> {
    if text == [] then [] else EscapedUnit(text) + Escaped(text[UnitLength(text)..])
  }

  /** 'text' is nothing but characters that stand in a JSON string as they are. */
  predicate AllKept(text: seq<byte>) {
    text == [] || (IsKept(text) && AllKept(text[UnitLength(text)..]))
  }

  // ---- A strict reader --------------------------------------------------------------

  datatype Read = Bad | Read(value: seq<character>, rest: seq<byte>)

  function HexValue(b: byte): int {
    if 0x30 <= b <= 0x39 then b - 0x30
    else if 0x61 <= b <= 0x66 then b - 0x61 + 10
    else if 0x41 <= b <= 0x46 then b - 0x41 + 10
    else -1
  }

  /** The code unit of \uXXXX, or -1. */
  function ReadHex(text: seq<byte>): int {
    if |text| < 4 || (exists i :: 0 <= i < 4 && HexValue(text[i]) < 0) then -1
    else HexValue(text[0]) * 0x1000 + HexValue(text[1]) * 0x100 + HexValue(text[2]) * 0x10 + HexValue(text[3])
  }

  /** What follows a backslash: the character it stands for. Escaped surrogates are refused. */
  function ReadEscape(text: seq<byte>): Read {
    if text == [] then Bad
    else
      match text[0]
      case 0x22 => Read([0x22], text[1..])
      case 0x5C => Read([0x5C], text[1..])
      case 0x2F => Read([0x2F], text[1..])
      case 0x62 => Read([0x08], text[1..])
      case 0x66 => Read([0x0C], text[1..])
      case 0x6E => Read([0x0A], text[1..])
      case 0x72 => Read([0x0D], text[1..])
      case 0x74 => Read([0x09], text[1..])
      case 0x75 =>
        var u := ReadHex(text[1..]);
        if u < 0 || !IsScalar(u) then Bad else Read([u], text[5..])
      case _ => Bad
  }

  /** One character of a string, escaped or not. */
  function ReadOne(text: seq<byte>): (read: Read)
    requires text != []
    ensures read.Read? ==> |read.rest| < |text|
  {
    if text[0] == BACKSLASH then ReadEscape(text[1..])
    else if text[0] < 0x20 || text[0] == QUOTE || CharacterLength(text) == 0 then Bad
    else Read([Decode8(text).character], text[CharacterLength(text)..])
  }

  /** The rest of a string after its opening quote, and what follows its closing quote. */
  function ReadString(text: seq<byte>): (read: Read)
    ensures read.Read? ==> |read.rest| < |text|
    decreases |text|
  {
    if text == [] then Bad
    else if text[0] == QUOTE then Read([], text[1..])
    else
      var one := ReadOne(text);
      if one.Bad? then Bad
      else
        var more := ReadString(one.rest);
        if more.Bad? then Bad else Read(one.value + more.value, more.rest)
  }

  // ---- Reading undoes escaping ---------------------------------------------------------

  lemma AsciiLength(text: seq<byte>)
    requires text != [] && text[0] < 0x80
    ensures CharacterLength(text) == 1 && Decode8(text) == Decoded(text[0], 1)
  {
    assert text[..1] == [text[0]];
  }

  lemma HexRoundTrip(b: byte, rest: seq<byte>)
    requires b < 0x80
    ensures ReadHex([0x30, 0x30, HexDigit(b / 0x10), HexDigit(b % 0x10)] + rest) == b
  {
    var text := [0x30, 0x30, HexDigit(b / 0x10), HexDigit(b % 0x10)] + rest;
    assert HexValue(text[0]) == 0 && HexValue(text[1]) == 0;
    assert HexValue(text[2]) == b / 0x10 && HexValue(text[3]) == b % 0x10;
    assert forall i :: 0 <= i < 4 ==> HexValue(text[i]) >= 0;
  }

  lemma ReadsEscape(b: byte, rest: seq<byte>)
    requires b < 0x80
    ensures ReadOne(Escape(b) + rest) == Read([b], rest)
  {
    var text := Escape(b) + rest;
    if |Escape(b)| == 2 {
      assert text[1..][1..] == rest;
    } else {
      HexRoundTrip(b, rest);
      assert text[1..][1..] == [0x30, 0x30, HexDigit(b / 0x10), HexDigit(b % 0x10)] + rest;
      assert text[1..][5..] == rest;
    }
  }

  lemma ReadsUnit(text: seq<byte>, rest: seq<byte>)
    requires text != []
    ensures var escaped := EscapedUnit(text);
      escaped[0] != QUOTE && ReadOne(escaped + rest) == Read([Decode8(text).character], rest)
  {
    var escaped := EscapedUnit(text);
    var all := escaped + rest;
    assert all[|escaped|..] == rest;
    if text[0] < 0x80 {
      AsciiLength(text);
      if IsKept(text) {
        AsciiLength(all);
      } else {
        ReadsEscape(text[0], rest);
      }
    } else if IsKept(text) {
      var n := CharacterLength(text);
      assert escaped == text[..n] && all[..n] == text[..n];
      CharacterIsFound(all, n);
    } else {
      assert all[..3] == U_FFFD;
      CharacterIsFound(all, 3);
      ReplacementValue();
    }
  }

  lemma ReplacementValue()
    ensures IsCharacter(U_FFFD) && Value(U_FFFD) == REPLACEMENT
  {
    assert Encode8(REPLACEMENT) == U_FFFD;
    ValueOfEncoded(REPLACEMENT);
  }

  /** The escape is the short one where there is one, and otherwise \\u with lower-case digits. */
  lemma EscapeIsShort(b: byte)
    requires b < 0x80
    ensures |Escape(b)| == if b in {0x08, 0x09, 0x0A, 0x0C, 0x0D, 0x22, 0x5C} then 2 else 6
    ensures forall i :: 0 <= i < |Escape(b)| ==> !(0x41 <= Escape(b)[i] <= 0x5A)
  {
  }

  /** Well-formed text without a quote, a backslash or a control character is written as it is. */
  lemma {:induction false} PlainIsUnchanged(text: seq<byte>)
    requires WellFormed8(text) && forall i :: 0 <= i < |text| ==> text[i] >= 0x20 && text[i] != 0x22 && text[i] != 0x5C
    ensures Escaped(text) == text
    decreases |text|
  {
    hide CharacterLength, EscapedUnit, UnitLength, WellFormed8;
    if text != [] {
      var n := UnitLength(text);
      PlainFirst(text);
      PlainIsUnchanged(text[n..]);
      assert text == text[..n] + text[n..];
    }
  }

  lemma PlainFirst(text: seq<byte>)
    requires WellFormed8(text) && text != [] && text[0] >= 0x20 && text[0] != 0x22 && text[0] != 0x5C
    ensures EscapedUnit(text) == text[..UnitLength(text)] && WellFormed8(text[UnitLength(text)..])
  {
    hide CharacterLength;
    if text[0] < 0x80 { AsciiLength(text); }
  }

  /** A strict reader takes the escaped text, up to its closing quote and no further, as the text's characters, with
      U+FFFD for each maximal ill-formed subpart. */
  lemma {:induction false} ReadsEscaped(text: seq<byte>, rest: seq<byte>)
    ensures ReadString(Escaped(text) + [QUOTE] + rest) == Read(Scalars8(text), rest)
    decreases |text|
  {
    if text == [] {
      assert (Escaped(text) + [QUOTE] + rest)[1..] == rest;
    } else {
      var n := UnitLength(text);
      var escaped, more := EscapedUnit(text), Escaped(text[n..]) + [QUOTE] + rest;
      UnitIsDecoded(text);
      ReadsUnit(text, more);
      ReadsEscaped(text[n..], rest);
      assert Escaped(text) + [QUOTE] + rest == escaped + more;
    }
  }

  lemma UnitIsDecoded(text: seq<byte>)
    requires text != []
    ensures Decode8(text).length == UnitLength(text)
  {
    if text[0] < 0x80 {
      AsciiLength(text);
    }
  }

  lemma {:induction false} AsciiAppended(ascii: seq<byte>, rest: seq<byte>)
    requires forall i :: 0 <= i < |ascii| ==> ascii[i] < 0x80
    requires WellFormed8(rest)
    ensures WellFormed8(ascii + rest)
  {
    if ascii == [] {
      assert ascii + rest == rest;
    } else {
      AsciiLength(ascii + rest);
      AsciiAppended(ascii[1..], rest);
      assert (ascii + rest)[1..] == ascii[1..] + rest;
    }
  }

  lemma EscapedUnitIsWellFormed(text: seq<byte>, rest: seq<byte>)
    requires text != [] && WellFormed8(rest)
    ensures WellFormed8(EscapedUnit(text) + rest)
  {
    var escaped := EscapedUnit(text);
    var all := escaped + rest;
    assert all[|escaped|..] == rest;
    if text[0] < 0x80 {
      AsciiAppended(escaped, rest);
    } else {
      ReplacementValue();
      assert IsCharacter(escaped) && all[..|escaped|] == escaped;
      CharacterIsFound(all, |escaped|);
    }
  }

  /** Whatever the bytes, the escaped text is well-formed UTF-8. */
  lemma {:induction false} EscapedIsWellFormed(text: seq<byte>)
    ensures WellFormed8(Escaped(text))
    decreases |text|
  {
    if text != [] {
      EscapedIsWellFormed(text[UnitLength(text)..]);
      EscapedUnitIsWellFormed(text, Escaped(text[UnitLength(text)..]));
    }
  }
}
