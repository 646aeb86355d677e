/** UTF-8 characters: which byte sequences they are, and the bits that lead between a sequence and its value. */
module Unicode {

  type byte = b: int | 0 <= b <= 0xFF
  type unit = u: int | 0 <= u <= 0xFFFF
  type character = c: int | 0 <= c <= 0xFFFFFFFF

  const REPLACEMENT: character := 0xFFFD

  /** The bytes of an ASCII text. */
  function Ascii(text: string): (bytes: seq<byte>)
    requires forall i :: 0 <= i < |text| ==> text[i] < 0x80 as char
    ensures |bytes| == |text| && forall i :: 0 <= i < |text| ==> bytes[i] == text[i] as int
  {
    if text == "" then [] else Ascii(text[..|text| - 1]) + [text[|text| - 1] as int]
  }

  predicate IsScalar(c: int) {
    0 <= c <= 0x10FFFF && !(0xD800 <= c <= 0xDFFF)
  }

  // ---- Well-formed sequences: section 4 of RFC 3629 ---------------------------

  predicate IsTail(b: byte) {
    0x80 <= b <= 0xBF
  }

  /** The second byte's range, which some lead bytes narrow. */
  predicate IsSecond(lead: byte, b: byte) {
    if lead == 0xE0 then 0xA0 <= b <= 0xBF
    else if lead == 0xED then 0x80 <= b <= 0x9F
    else if lead == 0xF0 then 0x90 <= b <= 0xBF
    else if lead == 0xF4 then 0x80 <= b <= 0x8F
    else IsTail(b)
  }

  /** 'bytes' is one character: UTF8-1, UTF8-2, UTF8-3 or UTF8-4. */
  predicate IsCharacter(bytes: seq<byte>) {
    if |bytes| == 1 then bytes[0] <= 0x7F
    else if |bytes| == 2 then 0xC2 <= bytes[0] <= 0xDF && IsTail(bytes[1])
    else if |bytes| == 3 then 0xE0 <= bytes[0] <= 0xEF && IsSecond(bytes[0], bytes[1]) && IsTail(bytes[2])
    else |bytes| == 4 && 0xF0 <= bytes[0] <= 0xF4 && IsSecond(bytes[0], bytes[1]) && IsTail(bytes[2]) && IsTail(bytes[3])
  }

  /** 'bytes' is the start of a character, but not all of it. */
  predicate BeginsCharacter(bytes: seq<byte>) {
    if |bytes| == 1 then 0xC2 <= bytes[0] <= 0xF4
    else if |bytes| == 2 then 0xE0 <= bytes[0] <= 0xF4 && IsSecond(bytes[0], bytes[1])
    else |bytes| == 3 && 0xF0 <= bytes[0] <= 0xF4 && IsSecond(bytes[0], bytes[1]) && IsTail(bytes[2])
  }

  lemma BeginsMeansBegins(bytes: seq<byte>)
    requires bytes != []
    ensures BeginsCharacter(bytes) <==> exists rest: seq<byte> :: rest != [] && IsCharacter(bytes + rest)
  {
    if BeginsCharacter(bytes) {
      var lead := bytes[0];
      var second: byte := if lead == 0xE0 then 0xA0 else if lead == 0xF0 then 0x90 else 0x80;
      var all := if |bytes| == 1 then [second, 0x80, 0x80] else if |bytes| == 2 then [0x80, 0x80] else [0x80];
      var rest := if lead <= 0xDF then all[..1] else if lead <= 0xEF then all[..3 - |bytes|] else all;
      assert IsCharacter(bytes + rest);
    }
    if rest: seq<byte> :| rest != [] && IsCharacter(bytes + rest) {
      var whole := bytes + rest;
      assert whole[0] == bytes[0];
      assert |bytes| > 1 ==> whole[1] == bytes[1];
      assert |bytes| > 2 ==> whole[2] == bytes[2];
    }
  }

  /** The length of the character 'text' starts with, or 0. */
  function CharacterLength(text: seq<byte>): nat {
    if |text| >= 1 && IsCharacter(text[..1]) then 1
    else if |text| >= 2 && IsCharacter(text[..2]) then 2
    else if |text| >= 3 && IsCharacter(text[..3]) then 3
    else if |text| >= 4 && IsCharacter(text[..4]) then 4
    else 0
  }

  /** Where no character starts, the length of the longest start that could begin one, at least 1. */
  function SubpartLength(text: seq<byte>): (length: nat)
    requires text != []
    ensures 1 <= length <= |text|
  {
    if |text| >= 3 && BeginsCharacter(text[..3]) then 3
    else if |text| >= 2 && BeginsCharacter(text[..2]) then 2
    else 1
  }

  lemma SubpartIsMaximal(text: seq<byte>, k: nat)
    requires text != [] && SubpartLength(text) < k <= |text|
    ensures !BeginsCharacter(text[..k])
  {
    if k == 3 { assert text[..3][..2] == text[..2]; }
  }

  // ---- The bits of a character -------------------------------------------------
  //
  // The source shifts and masks; here a shift right is a division and a mask a remainder. Where it joins bits with
  // 'or', they don't overlap, so that is a sum (BitsDoNotOverlap).

  lemma BitsDoNotOverlap(c: bv32, b: bv32)
    ensures c < 0x800 ==> 0xC0 | (c >> 6) == 0xC0 + (c >> 6)
    ensures c < 0x10000 ==> 0xE0 | (c >> 12) == 0xE0 + (c >> 12)
    ensures c < 0x200000 ==> 0xF0 | (c >> 18) == 0xF0 + (c >> 18)
    ensures 0x80 | (c & 0x3F) == 0x80 + (c & 0x3F)
    ensures (c << 6) | (b & 0x3F) == (c << 6) + (b & 0x3F)
  {
  }

  function Lead2(c: character): byte
    requires c < 0x800
  {
    0xC0 + c / 0x40
  }

  function Lead3(c: character): byte
    requires c < 0x10000
  {
    0xE0 + c / 0x1000
  }

  function Lead4(c: character): byte
    requires c <= 0x10FFFF
  {
    0xF0 + c / 0x40000
  }

  function TailOf(c: character): byte {
    0x80 + c % 0x40
  }

  /** 'c' with the six bits of the tail byte 'b' after its own. */
  function Push(c: nat, b: byte): nat {
    c * 0x40 + b % 0x40
  }

  function Encode8(c: character): (bytes: seq<byte>)
    requires IsScalar(c)
    ensures 1 <= |bytes| <= 4
  {
    if c < 0x80 then [c]
    else if c < 0x800 then [Lead2(c), TailOf(c)]
    else if c < 0x10000 then [Lead3(c), TailOf(c / 0x40), TailOf(c)]
    else [Lead4(c), TailOf(c / 0x1000), TailOf(c / 0x40), TailOf(c)]
  }

  /** The bits a lead byte gives to its character. */
  function LeadBits(lead: byte): nat {
    if lead < 0x80 then lead
    else if lead <= 0xDF then lead % 0x20
    else if lead <= 0xEF then lead % 0x10
    else lead % 0x08
  }

  function Value(bytes: seq<byte>): nat
    requires bytes != []
  {
    if |bytes| == 1 then LeadBits(bytes[0]) else Push(Value(bytes[..|bytes| - 1]), bytes[|bytes| - 1])
  }

  lemma Value2(a: byte, b: byte)
    ensures Value([a, b]) == Push(LeadBits(a), b)
  {
    assert [a, b][..1] == [a];
  }

  lemma Value3(a: byte, b: byte, d: byte)
    ensures Value([a, b, d]) == Push(Push(LeadBits(a), b), d)
  {
    assert [a, b, d][..2] == [a, b];
    Value2(a, b);
  }

  lemma Value4(a: byte, b: byte, d: byte, e: byte)
    ensures Value([a, b, d, e]) == Push(Push(Push(LeadBits(a), b), d), e)
  {
    assert [a, b, d, e][..3] == [a, b, d];
    Value3(a, b, d);
  }

  /** Six bits taken off the end go back on. */
  lemma PushTail(c: character)
    ensures IsTail(TailOf(c)) && Push(c / 0x40, TailOf(c)) == c
  {
  }

  lemma TailOfPush(c: nat, b: byte)
    requires IsTail(b) && c <= 0x10FFFF
    ensures TailOf(Push(c, b)) == b && Push(c, b) / 0x40 == c
  {
  }

  lemma Shifts(c: character)
    ensures (c / 0x40) / 0x40 == c / 0x1000 && (c / 0x1000) / 0x40 == c / 0x40000
  {
  }

  // The second byte's range: nothing overlong, no surrogates, nothing above U+10FFFF

  lemma SecondOf3(top: nat, next: nat)
    requires top <= 0x0F && next / 0x40 == top
    ensures IsSecond(0xE0 + top, TailOf(next)) <==> 0x20 <= next && !(0x360 <= next < 0x380)
  {
  }

  lemma SecondOf4(top: nat, next: nat)
    requires top <= 0x04 && next / 0x40 == top
    ensures IsSecond(0xF0 + top, TailOf(next)) <==> 0x10 <= next < 0x110
  {
  }

  lemma ValueOfEncoded3(c: character)
    requires 0x800 <= c < 0x10000 && IsScalar(c)
    ensures IsCharacter(Encode8(c)) && Value(Encode8(c)) == c
  {
    Shifts(c);
    PushTail(c);
    PushTail(c / 0x40);
    SecondOf3(c / 0x1000, c / 0x40);
    assert LeadBits(Lead3(c)) == c / 0x1000;
    Value3(Lead3(c), TailOf(c / 0x40), TailOf(c));
  }

  lemma ValueOfEncoded4(c: character)
    requires 0x10000 <= c && IsScalar(c)
    ensures IsCharacter(Encode8(c)) && Value(Encode8(c)) == c
  {
    Shifts(c);
    PushTail(c);
    PushTail(c / 0x40);
    PushTail(c / 0x1000);
    SecondOf4(c / 0x40000, c / 0x1000);
    assert LeadBits(Lead4(c)) == c / 0x40000;
    Value4(Lead4(c), TailOf(c / 0x1000), TailOf(c / 0x40), TailOf(c));
  }

  lemma ValueOfEncoded(c: character)
    requires IsScalar(c)
    ensures IsCharacter(Encode8(c)) && Value(Encode8(c)) == c
  {
    if 0x10000 <= c {
      ValueOfEncoded4(c);
    } else if 0x800 <= c {
      ValueOfEncoded3(c);
    } else if 0x80 <= c {
      PushTail(c);
      Value2(Lead2(c), TailOf(c));
    }
  }

  lemma EncodedValue2(a: byte, b: byte)
    requires IsCharacter([a, b])
    ensures IsScalar(Value([a, b])) && Encode8(Value([a, b])) == [a, b]
  {
    Value2(a, b);
    TailOfPush(LeadBits(a), b);
  }

  lemma Joined3(a: byte, b: byte, d: byte)
    requires 0xE0 <= a <= 0xEF && IsSecond(a, b) && IsTail(d)
    ensures var c := Push(Push(LeadBits(a), b), d);
      0x800 <= c < 0x10000 && IsScalar(c) && Lead3(c) == a && TailOf(c / 0x40) == b && TailOf(c) == d
  {
    var top := LeadBits(a);
    var next := Push(top, b);
    TailOfPush(top, b);
    TailOfPush(next, d);
    SecondOf3(top, next);
    Shifts(Push(next, d));
  }

  lemma Joined4(a: byte, b: byte, d: byte, e: byte)
    requires 0xF0 <= a <= 0xF4 && IsSecond(a, b) && IsTail(d) && IsTail(e)
    ensures var c := Push(Push(Push(LeadBits(a), b), d), e);
      && 0x10000 <= c <= 0x10FFFF
      && Lead4(c) == a && TailOf(c / 0x1000) == b && TailOf(c / 0x40) == d && TailOf(c) == e
  {
    var top := LeadBits(a);
    var next := Push(top, b);
    TailOfPush(top, b);
    TailOfPush(next, d);
    TailOfPush(Push(next, d), e);
    SecondOf4(top, next);
    Shifts(Push(Push(next, d), e));
  }

  lemma EncodedValue3(a: byte, b: byte, d: byte)
    requires IsCharacter([a, b, d])
    ensures IsScalar(Value([a, b, d])) && Encode8(Value([a, b, d])) == [a, b, d]
  {
    Value3(a, b, d);
    Joined3(a, b, d);
  }

  lemma EncodedValue4(a: byte, b: byte, d: byte, e: byte)
    requires IsCharacter([a, b, d, e])
    ensures IsScalar(Value([a, b, d, e])) && Encode8(Value([a, b, d, e])) == [a, b, d, e]
  {
    Value4(a, b, d, e);
    Joined4(a, b, d, e);
  }

  lemma EncodedValue(bytes: seq<byte>)
    requires IsCharacter(bytes)
    ensures IsScalar(Value(bytes)) && Encode8(Value(bytes)) == bytes
  {
    if |bytes| == 2 {
      assert bytes == [bytes[0], bytes[1]];
      EncodedValue2(bytes[0], bytes[1]);
    } else if |bytes| == 3 {
      assert bytes == [bytes[0], bytes[1], bytes[2]];
      EncodedValue3(bytes[0], bytes[1], bytes[2]);
    } else if |bytes| == 4 {
      assert bytes == [bytes[0], bytes[1], bytes[2], bytes[3]];
      EncodedValue4(bytes[0], bytes[1], bytes[2], bytes[3]);
    }
  }
}
