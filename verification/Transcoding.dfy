/** Decoding UTF-8 with U+FFFD for each maximal ill-formed subpart, and encoding it again. */
module Transcoding {
  import opened Unicode

  datatype Decoded = Decoded(character: character, length: nat)

  predicate AreScalars(text: seq<character>) {
    forall i :: 0 <= i < |text| ==> IsScalar(text[i])
  }

  // ---- UTF-8 ---------------------------------------------------------------------

  lemma DecodedBytes(text: seq<byte>)
    requires CharacterLength(text) > 0
    ensures var bytes := text[..CharacterLength(text)]; IsScalar(Value(bytes)) && Encode8(Value(bytes)) == bytes
  {
    EncodedValue(text[..CharacterLength(text)]);
  }

  /** What 'text' starts with: a character, or a maximal ill-formed subpart that U+FFFD stands for. */
  function Decode8(text: seq<byte>): (decoded: Decoded)
    requires text != []
    ensures 1 <= decoded.length <= |text|
  {
    var length := CharacterLength(text);
    if length > 0 then
      DecodedBytes(text);
      Decoded(Value(text[..length]), length)
    else
      Decoded(REPLACEMENT, SubpartLength(text))
  }

  function Scalars8(text: seq<byte>): seq<character> {
    if text == [] then [] else
      var first := Decode8(text);
      [first.character] + Scalars8(text[first.length..])
  }

  function EncodeAll8(text: seq<character>): seq<byte>
    requires AreScalars(text)
  {
    if text == [] then [] else Encode8(text[0]) + EncodeAll8(text[1..])
  }

  /** 'text' is nothing but characters. */
  predicate WellFormed8(text: seq<byte>) {
    text == [] || (CharacterLength(text) > 0 && WellFormed8(text[CharacterLength(text)..]))
  }

  /** 'text' with each maximal ill-formed subpart replaced by U+FFFD, byte for byte. */
  function Sanitised(text: seq<byte>): seq<byte> {
    if text == [] then [] else
      var length := CharacterLength(text);
      if length > 0 then text[..length] + Sanitised(text[length..])
      else [0xEF, 0xBF, 0xBD] + Sanitised(text[SubpartLength(text)..])
  }

  lemma CharacterIsFound(text: seq<byte>, length: nat)
    requires length <= |text| && IsCharacter(text[..length])
    ensures CharacterLength(text) == length
  {
    assert 1 <= length <= 4 && text[..length][0] == text[0];
    assert length > 1 ==> text[..1][0] == text[0];
    assert length > 2 ==> text[..2][0] == text[0];
    assert length > 3 ==> text[..3][0] == text[0];
  }

  /** Decoding stops at 'length' bytes of a character: there are no more, or the next one can't go on. */
  lemma SubpartIsFound(text: seq<byte>, length: nat)
    requires 0 < length <= |text|
    requires BeginsCharacter(text[..length])
    requires length < |text| ==> !BeginsCharacter(text[..length + 1]) && !IsCharacter(text[..length + 1])
    ensures CharacterLength(text) == 0 && SubpartLength(text) == length
  {
    forall k: nat | k <= |text| && IsCharacter(text[..k])
      ensures false
    {
      BetweenBeginAndEnd(text, length, k);
    }
    forall k: nat | length < k <= |text| && k <= 3
      ensures !BeginsCharacter(text[..k])
    {
      if BeginsCharacter(text[..k]) {
        BeginsBefore(text, length + 1, k);
      }
    }
  }

  lemma BeginsBefore(text: seq<byte>, k: nat, length: nat)
    requires 0 < k <= length <= |text| && BeginsCharacter(text[..length])
    ensures BeginsCharacter(text[..k])
  {
    assert text[..length][0] == text[..k][0] == text[0];
    assert k > 1 ==> text[..length][1] == text[..k][1] == text[1];
    assert k > 2 ==> text[..length][2] == text[..k][2] == text[2];
  }

  lemma BetweenBeginAndEnd(text: seq<byte>, length: nat, k: nat)
    requires 0 < length <= |text| && k <= |text|
    requires BeginsCharacter(text[..length]) && IsCharacter(text[..k])
    ensures length < k && (BeginsCharacter(text[..length + 1]) || IsCharacter(text[..length + 1]))
  {
    assert text[..length][0] == text[..k][0] == text[0];
    if length + 1 < k {
      assert text[..length + 1][0] == text[0];
      assert text[..k][1] == text[..length + 1][1] == text[1];
      assert k > 3 && length == 2 ==> text[..k][2] == text[..length + 1][2] == text[2];
    }
  }

  // The range of the second byte

  function LowestSecond(lead: byte): byte {
    if lead == 0xE0 then 0xA0 else if lead == 0xF0 then 0x90 else 0x80
  }

  function HighestSecond(lead: byte): byte {
    if lead == 0xED then 0x9F else if lead == 0xF4 then 0x8F else 0xBF
  }

  /** How many bytes the character that 'lead' begins has, or 0. */
  function PromisedLength(lead: byte): nat {
    if 0xC2 <= lead <= 0xDF then 2 else if 0xE0 <= lead <= 0xEF then 3 else if 0xF0 <= lead <= 0xF4 then 4 else 0
  }

  /** One more byte in its range goes on with what was begun. */
  lemma ByteGoesOn(text: seq<byte>, count: nat)
    requires 0 < count < |text| && BeginsCharacter(text[..count])
    ensures var length, b := PromisedLength(text[0]), text[count];
            var fits := if count == 1 then LowestSecond(text[0]) <= b <= HighestSecond(text[0]) else IsTail(b);
            && count < length
            && (BeginsCharacter(text[..count + 1]) <==> fits && count + 1 < length)
            && (IsCharacter(text[..count + 1]) <==> fits && count + 1 == length)
  {
    var before, after := text[..count], text[..count + 1];
    assert before[0] == after[0] == text[0] && after[count] == text[count];
    assert count > 1 ==> before[1] == after[1];
    assert count > 2 ==> before[2] == after[2];
  }

  /** The first 'count' bytes are a character, or begin one. */
  predicate Reads(text: seq<byte>, count: nat) {
    0 < count <= |text| && PromisedLength(text[0]) > 0 &&
    if count < PromisedLength(text[0]) then BeginsCharacter(text[..count]) else IsCharacter(text[..count])
  }

  lemma ReadsOn(text: seq<byte>, count: nat)
    requires Reads(text, count) && count < PromisedLength(text[0])
    ensures count == |text| ==> CharacterLength(text) == 0 && SubpartLength(text) == count
    ensures count < |text| ==>
      var fits := if count == 1 then LowestSecond(text[0]) <= text[count] <= HighestSecond(text[0]) else IsTail(text[count]);
      && (fits ==> Reads(text, count + 1) && Value(text[..count + 1]) == Push(Value(text[..count]), text[count]))
      && (!fits ==> CharacterLength(text) == 0 && SubpartLength(text) == count)
  {
    if count < |text| {
      ByteGoesOn(text, count);
      assert text[..count + 1][..count] == text[..count];
    }
    if count == |text| || (!BeginsCharacter(text[..count + 1]) && !IsCharacter(text[..count + 1])) {
      SubpartIsFound(text, count);
    }
  }

  lemma ReadsOne(text: seq<byte>)
    requires text != [] && PromisedLength(text[0]) > 0
    ensures Reads(text, 1) && Value(text[..1]) == LeadBits(text[0])
  {
    assert text[..1] == [text[0]];
  }

  lemma NothingBegins(text: seq<byte>)
    requires text != [] && text[0] >= 0x80 && PromisedLength(text[0]) == 0
    ensures CharacterLength(text) == 0 && SubpartLength(text) == 1
  {
    assert text[..1][0] == text[0];
    assert |text| >= 2 ==> text[..2][0] == text[0];
    assert |text| >= 3 ==> text[..3][0] == text[0];
    assert |text| >= 4 ==> text[..4][0] == text[0];
  }

  method DecodeUTF8(text: seq<byte>, index: nat) returns (character: character, next: nat)
    requires index < |text|
    ensures index < next <= |text|
    ensures Decoded(character, next - index) == Decode8(text[index..])
  {
    hide Reads, Value, CharacterLength, SubpartLength, BeginsCharacter, IsCharacter;
    var lead := text[index];
    ghost var rest := text[index..];
    next := index + 1;
    if lead < 0x80 {
      OneByteDecodes(rest);
      return lead, next;
    }
    var length := 0;
    var bits: nat := 0;
    var low, high := 0x80, 0xBF;
    if 0xC2 <= lead <= 0xDF {
      length, bits := 2, lead % 0x20;
    } else if 0xE0 <= lead <= 0xEF {
      length, bits := 3, lead % 0x10;
      low := if lead == 0xE0 then 0xA0 else 0x80;
      high := if lead == 0xED then 0x9F else 0xBF;
    } else if 0xF0 <= lead <= 0xF4 {
      length, bits := 4, lead % 0x08;
      low := if lead == 0xF0 then 0x90 else 0x80;
      high := if lead == 0xF4 then 0x8F else 0xBF;
    } else {
      NothingBegins(rest);
      return REPLACEMENT, next;
    }
    ReadsOne(rest);
    var count := 1;
    while count < length
      invariant 1 <= count <= length == PromisedLength(lead) && next == index + count <= |text|
      invariant Reads(rest, count) && bits == Value(rest[..count])
      invariant low == (if count == 1 then LowestSecond(lead) else 0x80)
      invariant high == (if count == 1 then HighestSecond(lead) else 0xBF)
    {
      ReadsOn(rest, count);
      if next >= |text| {
        return REPLACEMENT, next;
      }
      if text[next] < low || text[next] > high {
        return REPLACEMENT, next;
      }
      bits := Push(bits, text[next]);
      low, high := 0x80, 0xBF;
      next := next + 1;
      count := count + 1;
    }
    ReadsAll(rest, length);
    DecodedBytes(rest);
    character := bits;
  }

  lemma OneByteDecodes(text: seq<byte>)
    requires text != [] && text[0] < 0x80
    ensures Decode8(text) == Decoded(text[0], 1)
  {
    assert text[..1] == [text[0]];
    CharacterIsFound(text, 1);
  }

  lemma ReadsAll(text: seq<byte>, count: nat)
    requires Reads(text, count) && count == PromisedLength(text[0])
    ensures CharacterLength(text) == count
  {
    CharacterIsFound(text, count);
  }

  /** For a byte above 0x7F: the length of its character, or 0 and the length of the maximal ill-formed subpart. */
  method MeasureUTF8Sequence(text: seq<byte>, index: nat) returns (length: nat, invalidLength: nat)
    requires index < |text| && text[index] >= 0x80
    ensures length == CharacterLength(text[index..])
    ensures length == 0 ==> invalidLength == SubpartLength(text[index..])
  {
    var lead := text[index];
    ghost var rest := text[index..];
    invalidLength := 0;
    length := 0;
    var low, high := 0x80, 0xBF;
    if 0xC2 <= lead <= 0xDF {
      length := 2;
    } else if 0xE0 <= lead <= 0xEF {
      length := 3;
      low := if lead == 0xE0 then 0xA0 else 0x80;
      high := if lead == 0xED then 0x9F else 0xBF;
    } else if 0xF0 <= lead <= 0xF4 {
      length := 4;
      low := if lead == 0xF0 then 0x90 else 0x80;
      high := if lead == 0xF4 then 0x8F else 0xBF;
    } else {
      NothingBegins(rest);
      return 0, 1;
    }
    ReadsOne(rest);
    var count := 1;
    while count < length && index + count < |text|
      invariant 1 <= count <= length == PromisedLength(lead) && index + count <= |text|
      invariant Reads(rest, count)
      invariant low == (if count == 1 then LowestSecond(lead) else 0x80)
      invariant high == (if count == 1 then HighestSecond(lead) else 0xBF)
    {
      ReadsOn(rest, count);
      if text[index + count] < low || text[index + count] > high {
        return 0, count;
      }
      low, high := 0x80, 0xBF;
      count := count + 1;
    }
    if count == length {
      CharacterIsFound(rest, length);
      return length, 0;
    }
    ReadsOn(rest, count);
    return 0, count;
  }

  /** A character in front of any text is read back, and nothing more. */
  lemma DecodesEncoded(c: character, rest: seq<byte>)
    requires IsScalar(c)
    ensures Decode8(Encode8(c) + rest) == Decoded(c, |Encode8(c)|)
    ensures CharacterLength(Encode8(c) + rest) == |Encode8(c)|
  {
    var bytes := Encode8(c);
    ValueOfEncoded(c);
    assert (bytes + rest)[..|bytes|] == bytes;
    CharacterIsFound(bytes + rest, |bytes|);
  }

  lemma {:induction false} Scalars8OfEncoded(text: seq<character>)
    requires AreScalars(text)
    ensures Scalars8(EncodeAll8(text)) == text && WellFormed8(EncodeAll8(text))
  {
    if text != [] {
      var bytes, rest := Encode8(text[0]), EncodeAll8(text[1..]);
      DecodesEncoded(text[0], rest);
      assert (bytes + rest)[|bytes|..] == rest;
      Scalars8OfEncoded(text[1..]);
    }
  }

  lemma DecodedIsScalar(text: seq<byte>)
    requires text != []
    ensures IsScalar(Decode8(text).character)
    ensures CharacterLength(text) > 0 ==> Encode8(Decode8(text).character) == text[..CharacterLength(text)]
  {
    if CharacterLength(text) > 0 {
      EncodedValue(text[..CharacterLength(text)]);
    }
  }

  lemma EncodesFirst(c: character, rest: seq<character>)
    requires IsScalar(c) && AreScalars(rest)
    ensures AreScalars([c] + rest) && EncodeAll8([c] + rest) == Encode8(c) + EncodeAll8(rest)
  {
    hide Encode8;
    assert ([c] + rest)[1..] == rest;
  }

  lemma SanitisesFirst(text: seq<byte>)
    requires text != []
    ensures IsScalar(Decode8(text).character)
    ensures Sanitised(text) == Encode8(Decode8(text).character) + Sanitised(text[Decode8(text).length..])
  {
    DecodedIsScalar(text);
    assert Encode8(REPLACEMENT) == [0xEF, 0xBF, 0xBD];
    hide CharacterLength, SubpartLength, Encode8, Value;
  }

  lemma {:induction false} EncodedOfScalars8(text: seq<byte>)
    ensures AreScalars(Scalars8(text)) && EncodeAll8(Scalars8(text)) == Sanitised(text)
  {
    if text != [] {
      hide Decode8, Encode8, CharacterLength, SubpartLength;
      var first := Decode8(text);
      SanitisesFirst(text);
      EncodedOfScalars8(text[first.length..]);
      EncodesFirst(first.character, Scalars8(text[first.length..]));
    }
  }

  /** Sanitising gives well-formed text, and changes only what is ill-formed. */
  lemma {:induction false} SanitisedIsWellFormed(text: seq<byte>)
    ensures WellFormed8(Sanitised(text))
    ensures Sanitised(text) == text <==> WellFormed8(text)
  {
    EncodedOfScalars8(text);
    Scalars8OfEncoded(Scalars8(text));
    if WellFormed8(text) {
      WellFormedIsKept(text);
    }
  }

  lemma {:induction false} WellFormedIsKept(text: seq<byte>)
    requires WellFormed8(text)
    ensures Sanitised(text) == text
  {
    if text != [] {
      WellFormedIsKept(text[CharacterLength(text)..]);
    }
  }
}
