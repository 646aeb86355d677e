/** Tests on eight bytes at once, in a 64-bit word: exact, although subtracting borrows from one byte to the next. */
module Words {
  import opened Unicode

  const CR: byte := 0x0D
  const LF: byte := 0x0A
  const QUOTE: byte := 0x22
  const BACKSLASH: byte := 0x5C

  /** What a JSON string holds as it is, in ASCII. */
  predicate IsPlainJSONCharacter(b: byte) {
    b >= 0x20 && b < 0x80 && b != QUOTE && b != BACKSLASH
  }

  const ONES: bv64 := 0x0101010101010101
  const HIGH_BITS: bv64 := 0x8080808080808080

  function Load(a: bv8, b: bv8, c: bv8, d: bv8, e: bv8, f: bv8, g: bv8, h: bv8): bv64 {
    a as bv64 | (b as bv64 << 8) | (c as bv64 << 16) | (d as bv64 << 24) |
    (e as bv64 << 32) | (f as bv64 << 40) | (g as bv64 << 48) | (h as bv64 << 56)
  }

  function Bits(b: byte): bv8 {
    b as bv8
  }

  function WordOf(data: seq<byte>): bv64
    requires |data| == 8
  {
    Load(Bits(data[0]), Bits(data[1]), Bits(data[2]), Bits(data[3]),
         Bits(data[4]), Bits(data[5]), Bits(data[6]), Bits(data[7]))
  }

  predicate IsPlainWord(word: bv64) {
    var quotes := word ^ (ONES * 0x22);
    var backslashes := word ^ (ONES * 0x5C);
    var special := word | ((word - ONES * 0x20) & !word) | ((quotes - ONES) & !quotes) | ((backslashes - ONES) & !backslashes);
    special & HIGH_BITS == 0
  }

  predicate HasBreak(word: bv64) {
    var crs := word ^ (ONES * 0x0D);
    var lfs := word ^ (ONES * 0x0A);
    var found := ((crs - ONES) & !crs) | ((lfs - ONES) & !lfs);
    found & HIGH_BITS != 0
  }

  predicate IsPlainJSONWord(data: seq<byte>)
    requires |data| == 8
  {
    IsPlainWord(WordOf(data))
  }

  predicate HasCROrLF(data: seq<byte>)
    requires |data| == 8
  {
    HasBreak(WordOf(data))
  }

  predicate IsPlainBits(b: bv8) {
    b >= 0x20 && b < 0x80 && b != 0x22 && b != 0x5C
  }

  lemma PlainBits(b: byte)
    ensures IsPlainBits(Bits(b)) <==> IsPlainJSONCharacter(b)
  {
  }

  lemma BreakBits(b: byte)
    ensures IsBreakBits(Bits(b)) <==> b == CR || b == LF
  {
  }

  lemma PlainWordIsExact(a: bv8, b: bv8, c: bv8, d: bv8, e: bv8, f: bv8, g: bv8, h: bv8)
    ensures IsPlainWord(Load(a, b, c, d, e, f, g, h)) <==>
      && IsPlainBits(a) && IsPlainBits(b) && IsPlainBits(c) && IsPlainBits(d)
      && IsPlainBits(e) && IsPlainBits(f) && IsPlainBits(g) && IsPlainBits(h)
  {
  }

  predicate IsBreakBits(b: bv8) {
    b == 0x0D || b == 0x0A
  }

  lemma BreakWordIsExact(a: bv8, b: bv8, c: bv8, d: bv8, e: bv8, f: bv8, g: bv8, h: bv8)
    ensures HasBreak(Load(a, b, c, d, e, f, g, h)) <==>
      || IsBreakBits(a) || IsBreakBits(b) || IsBreakBits(c) || IsBreakBits(d)
      || IsBreakBits(e) || IsBreakBits(f) || IsBreakBits(g) || IsBreakBits(h)
  {
  }

  /** The word test says exactly what testing the eight bytes one at a time says. */
  lemma IsPlainJSONWordIsExact(data: seq<byte>)
    requires |data| == 8
    ensures IsPlainJSONWord(data) <==> forall i :: 0 <= i < 8 ==> IsPlainJSONCharacter(data[i])
  {
    hide Bits, IsPlainWord, IsPlainBits, Load;
    PlainWordIsExact(Bits(data[0]), Bits(data[1]), Bits(data[2]), Bits(data[3]),
                     Bits(data[4]), Bits(data[5]), Bits(data[6]), Bits(data[7]));
    PlainBits(data[0]);
    PlainBits(data[1]);
    PlainBits(data[2]);
    PlainBits(data[3]);
    PlainBits(data[4]);
    PlainBits(data[5]);
    PlainBits(data[6]);
    PlainBits(data[7]);
  }

  lemma HasCROrLFIsExact(data: seq<byte>)
    requires |data| == 8
    ensures HasCROrLF(data) <==> exists i :: 0 <= i < 8 && (data[i] == CR || data[i] == LF)
  {
    hide Bits, HasBreak, IsBreakBits, Load;
    BreakWordIsExact(Bits(data[0]), Bits(data[1]), Bits(data[2]), Bits(data[3]),
                     Bits(data[4]), Bits(data[5]), Bits(data[6]), Bits(data[7]));
    BreakBits(data[0]);
    BreakBits(data[1]);
    BreakBits(data[2]);
    BreakBits(data[3]);
    BreakBits(data[4]);
    BreakBits(data[5]);
    BreakBits(data[6]);
    BreakBits(data[7]);
  }
}
