/** UTF-16 (section 2 of RFC 2781), and what a text keeps on its way to the other encoding and back. */
module Utf16 {
  import opened Unicode
  import opened Transcoding
  import opened Sequences

  predicate IsHigh(u: unit) {
    0xD800 <= u <= 0xDBFF
  }

  predicate IsLow(u: unit) {
    0xDC00 <= u <= 0xDFFF
  }

  function High(c: character): unit
    requires 0x10000 <= c <= 0x10FFFF
  {
    0xD800 + (c - 0x10000) / 0x400
  }

  function Low(c: character): unit
    requires 0x10000 <= c <= 0x10FFFF
  {
    0xDC00 + (c - 0x10000) % 0x400
  }

  function Paired(high: unit, low: unit): character
    requires IsHigh(high) && IsLow(low)
  {
    0x10000 + (high - 0xD800) * 0x400 + (low - 0xDC00)
  }

  function Encode16(c: character): seq<unit>
    requires IsScalar(c)
  {
    if c < 0x10000 then [c] else [High(c), Low(c)]
  }

  function EncodeAll16(text: seq<character>): seq<unit>
    requires AreScalars(text)
  {
    if text == [] then [] else Encode16(text[0]) + EncodeAll16(text[1..])
  }

  predicate StartsPair(text: seq<unit>, index: nat) {
    index + 1 < |text| && IsHigh(text[index]) && IsLow(text[index + 1])
  }

  function Decode16(text: seq<unit>, index: nat): (decoded: Decoded)
    requires index < |text|
    ensures 1 <= decoded.length <= |text| - index
  {
    var u := text[index];
    if !IsHigh(u) && !IsLow(u) then Decoded(u, 1)
    else if StartsPair(text, index) then Decoded(Paired(u, text[index + 1]), 2)
    else Decoded(REPLACEMENT, 1)
  }

  /** The characters of 'text' from 'index' on. */
  function Scalars16(text: seq<unit>, index: nat): seq<character>
    requires index <= |text|
    decreases |text| - index
  {
    if index == |text| then [] else
      var first := Decode16(text, index);
      [first.character] + Scalars16(text, index + first.length)
  }

  /** A surrogate without the other half of its pair next to it. */
  predicate Unpaired(text: seq<unit>, i: nat)
    requires i < |text|
  {
    || (IsHigh(text[i]) && !(i + 1 < |text| && IsLow(text[i + 1])))
    || (IsLow(text[i]) && !(i > 0 && IsHigh(text[i - 1])))
  }

  /** 'repaired' is 'text' but for its unpaired surrogates, which are U+FFFD there. */
  ghost predicate IsRepaired(text: seq<unit>, repaired: seq<unit>) {
    |repaired| == |text| &&
    forall i: nat :: i < |text| ==> repaired[i] == if Unpaired(text, i) then 0xFFFD else text[i]
  }

  lemma SplitPair(c: character)
    requires 0x10000 <= c <= 0x10FFFF
    ensures IsHigh(High(c)) && IsLow(Low(c)) && Paired(High(c), Low(c)) == c
  {
  }

  lemma JoinPair(high: unit, low: unit)
    requires IsHigh(high) && IsLow(low)
    ensures 0x10000 <= Paired(high, low) <= 0x10FFFF
    ensures High(Paired(high, low)) == high && Low(Paired(high, low)) == low
  {
  }

  // ---- Loops ------------------------------------------------------------------------

  method DecodeUTF16(text: seq<unit>, index: nat) returns (character: character, next: nat)
    requires index < |text|
    ensures index < next <= |text|
    ensures Decoded(character, next - index) == Decode16(text, index)
  {
    var u: int := text[index];
    next := index + 1;
    if u < 0xD800 || u > 0xDFFF {
      return u, next;
    }
    if u <= 0xDBFF && next < |text| {
      var v: int := text[next];
      if 0xDC00 <= v && v <= 0xDFFF {
        return 0x10000 + (u - 0xD800) * 0x400 + (v - 0xDC00), next + 1;
      }
    }
    return REPLACEMENT, next;
  }

  lemma EncodesFirst16(c: character, rest: seq<character>)
    requires IsScalar(c) && AreScalars(rest)
    ensures EncodeAll16([c] + rest) == Encode16(c) + EncodeAll16(rest)
  {
    assert ([c] + rest)[1..] == rest;
  }

  lemma EncodesFirst8(c: character, rest: seq<character>)
    requires IsScalar(c) && AreScalars(rest)
    ensures EncodeAll8([c] + rest) == Encode8(c) + EncodeAll8(rest)
  {
    assert ([c] + rest)[1..] == rest;
  }

  lemma FirstOf8(text: seq<byte>, index: nat)
    requires index < |text|
    ensures var first := Decode8(text[index..]);
      && IsScalar(first.character) && AreScalars(Scalars8(text[index + first.length..]))
      && Scalars8(text[index..]) == [first.character] + Scalars8(text[index + first.length..])
  {
    var rest, first := text[index..], Decode8(text[index..]);
    assert rest[first.length..] == text[index + first.length..];
    DecodedIsScalar(rest);
    EncodedOfScalars8(text[index + first.length..]);
  }

  /** 'output' is what the first 'index' bytes of 'text' give. */
  ghost predicate IsWritten16(text: seq<byte>, index: nat, output: seq<unit>) {
    && index <= |text| && AreScalars(Scalars8(text)) && AreScalars(Scalars8(text[index..]))
    && output + EncodeAll16(Scalars8(text[index..])) == EncodeAll16(Scalars8(text))
  }

  lemma WritesOn16(text: seq<byte>, index: nat, output: seq<unit>)
    requires index < |text| && IsWritten16(text, index, output)
    ensures var first := Decode8(text[index..]);
      IsScalar(first.character) && IsWritten16(text, index + first.length, output + Encode16(first.character))
  {
    hide Decode8, Encode16;
    var first := Decode8(text[index..]);
    FirstOf8(text, index);
    Appends16(output, first.character, Scalars8(text[index + first.length..]));
  }

  lemma StartsAndEnds16(text: seq<byte>, output: seq<unit>)
    ensures IsWritten16(text, 0, [])
    ensures IsWritten16(text, |text|, output) ==> AreScalars(Scalars8(text)) && output == EncodeAll16(Scalars8(text))
  {
    EncodedOfScalars8(text);
    assert text[0..] == text && text[|text|..] == [];
  }

  method ToUTF16(text: seq<byte>) returns (output: seq<unit>)
    ensures AreScalars(Scalars8(text)) && output == EncodeAll16(Scalars8(text))
  {
    hide IsWritten16, Decode8, Encode16;
    output := [];
    var index := 0;
    StartsAndEnds16(text, output);
    while index < |text|
      invariant index <= |text| && IsWritten16(text, index, output)
    {
      WritesOn16(text, index, output);
      var character, next := DecodeUTF8(text, index);
      output := output + Encode16(character);
      index := next;
    }
    StartsAndEnds16(text, output);
  }

  lemma Appends16(output: seq<unit>, c: character, rest: seq<character>)
    requires IsScalar(c) && AreScalars(rest)
    ensures output + EncodeAll16([c] + rest) == (output + Encode16(c)) + EncodeAll16(rest)
  {
    EncodesFirst16(c, rest);
    Associates(output, Encode16(c), EncodeAll16(rest));
  }

  lemma Appends8(output: seq<byte>, c: character, rest: seq<character>)
    requires IsScalar(c) && AreScalars(rest)
    ensures output + EncodeAll8([c] + rest) == (output + Encode8(c)) + EncodeAll8(rest)
  {
    EncodesFirst8(c, rest);
    Associates(output, Encode8(c), EncodeAll8(rest));
  }

  method ToUTF8(text: seq<unit>) returns (output: seq<byte>)
    ensures AreScalars(Scalars16(text, 0)) && output == EncodeAll8(Scalars16(text, 0))
  {
    output := [];
    var index := 0;
    Scalars16AreScalars(text, 0);
    while index < |text|
      invariant index <= |text| && AreScalars(Scalars16(text, index))
      invariant output + EncodeAll8(Scalars16(text, index)) == EncodeAll8(Scalars16(text, 0))
    {
      var character, next := DecodeUTF16(text, index);
      Scalars16AreScalars(text, next);
      Appends8(output, character, Scalars16(text, next));
      output := output + Encode8(character);
      index := next;
    }
  }

  // ---- There and back ------------------------------------------------------------------

  lemma {:induction false} Scalars16AreScalars(text: seq<unit>, index: nat)
    requires index <= |text|
    ensures AreScalars(Scalars16(text, index))
    ensures index < |text| ==> IsScalar(Decode16(text, index).character)
    decreases |text| - index
  {
    if index < |text| {
      if StartsPair(text, index) {
        JoinPair(text[index], text[index + 1]);
      }
      Scalars16AreScalars(text, index + Decode16(text, index).length);
    }
  }

  lemma DecodesEncoded16(before: seq<unit>, c: character, rest: seq<unit>)
    requires IsScalar(c)
    ensures Decode16(before + Encode16(c) + rest, |before|) == Decoded(c, |Encode16(c)|)
  {
    var text := before + Encode16(c) + rest;
    if c < 0x10000 {
      assert text[|before|] == c;
    } else {
      SplitPair(c);
      assert text[|before|] == High(c) && text[|before| + 1] == Low(c);
    }
  }

  lemma {:induction false} Scalars16OfEncoded(before: seq<unit>, text: seq<character>)
    requires AreScalars(text)
    ensures Scalars16(before + EncodeAll16(text), |before|) == text
    decreases |text|
  {
    if text == [] {
      assert before + EncodeAll16(text) == before;
    } else {
      var units, rest := Encode16(text[0]), EncodeAll16(text[1..]);
      var whole := (before + units) + rest;
      DecodesEncoded16(before, text[0], rest);
      Scalars16OfEncoded(before + units, text[1..]);
      assert Scalars16(whole, |before|) == [text[0]] + text[1..];
      Associates(before, units, rest);
    }
  }

  lemma PairIsKept(text: seq<unit>, index: nat)
    requires StartsPair(text, index)
    ensures var c := Decode16(text, index).character; IsScalar(c) && Encode16(c) == [text[index], text[index + 1]]
  {
    JoinPair(text[index], text[index + 1]);
  }

  /** What one step of decoding writes is the repaired form of what it read. */
  lemma StepRepairs(text: seq<unit>, index: nat)
    requires index < |text| && !(index > 0 && StartsPair(text, index - 1))
    ensures var step := Decode16(text, index);
      && IsScalar(step.character) && |Encode16(step.character)| == step.length
      && !StartsPair(text, index + step.length - 1)
      && (forall i: nat :: i < step.length ==>
           Encode16(step.character)[i] == if Unpaired(text, index + i) then 0xFFFD else text[index + i])
  {
    if StartsPair(text, index) {
      PairIsKept(text, index);
    } else if IsHigh(text[index]) || IsLow(text[index]) {
      assert Unpaired(text, index) && Encode16(REPLACEMENT) == [0xFFFD];
    }
  }

  lemma {:induction false} EncodedOfScalars16(text: seq<unit>, index: nat)
    requires index <= |text| && !(index > 0 && StartsPair(text, index - 1))
    ensures AreScalars(Scalars16(text, index))
    ensures var repaired := EncodeAll16(Scalars16(text, index));
      |repaired| == |text| - index &&
      forall i: nat :: index <= i < |text| ==> repaired[i - index] == if Unpaired(text, i) then 0xFFFD else text[i]
    decreases |text| - index
  {
    if index < |text| {
      var step := Decode16(text, index);
      var next := index + step.length;
      StepRepairs(text, index);
      EncodedOfScalars16(text, next);
      var repaired, rest := EncodeAll16(Scalars16(text, index)), EncodeAll16(Scalars16(text, next));
      assert Scalars16(text, index)[1..] == Scalars16(text, next);
      assert repaired == Encode16(step.character) + rest;
      forall i: nat | index <= i < |text|
        ensures repaired[i - index] == if Unpaired(text, i) then 0xFFFD else text[i]
      {
        if i < next {
          assert repaired[i - index] == Encode16(step.character)[i - index];
        } else {
          assert repaired[i - index] == rest[i - next];
        }
      }
    }
  }

  /** UTF-8 to UTF-16 and back sanitises: well-formed text is unchanged, and each ill-formed subpart becomes U+FFFD. */
  lemma UTF8ThereAndBack(text: seq<byte>)
    ensures var there := Scalars8(text);
      && AreScalars(there) && AreScalars(Scalars16(EncodeAll16(there), 0))
      && EncodeAll8(Scalars16(EncodeAll16(there), 0)) == Sanitised(text)
      && (EncodeAll8(Scalars16(EncodeAll16(there), 0)) == text <==> WellFormed8(text))
  {
    EncodedOfScalars8(text);
    Scalars16OfEncoded([], Scalars8(text));
    assert [] + EncodeAll16(Scalars8(text)) == EncodeAll16(Scalars8(text));
    SanitisedIsWellFormed(text);
  }

  /** UTF-16 to UTF-8 and back replaces the unpaired surrogates by U+FFFD, and nothing else. */
  lemma UTF16ThereAndBack(text: seq<unit>)
    ensures var there := Scalars16(text, 0);
      && AreScalars(there) && WellFormed8(EncodeAll8(there)) && AreScalars(Scalars8(EncodeAll8(there)))
      && var back := EncodeAll16(Scalars8(EncodeAll8(there)));
      && IsRepaired(text, back)
      && (back == text <==> forall i: nat :: i < |text| ==> !Unpaired(text, i))
  {
    EncodedOfScalars16(text, 0);
    Scalars8OfEncoded(Scalars16(text, 0));
  }
}
