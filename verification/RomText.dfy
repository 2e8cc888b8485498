// sim/config.cpp, programs/mtconf.c: strings in the ROM. The writer packs four characters to a word
// and shifts them as signed numbers; the reader takes the words as bytes again.
module RomText {
  import opened Arith
  import opened Bits
  import opened RomLayout
  import opened RomReader

  // The k-th character, the terminating zero after the last one.
  function Char(text: seq<u8>, k: nat): (c: nat)
    ensures c < 256
  {
    if k < |text| then text[k] else 0
  }

  // Byte b of a word in memory, on a little-endian machine.
  function ByteOf(word: u32, b: nat): nat
    requires b < 4
  {
    if b == 0 then word % 256
    else if b == 1 then word / 256 % 256
    else if b == 2 then word / 0x1_0000 % 256
    else word / 0x100_0000
  }

  function CharByte(cfg: seq<u32>, p: nat, k: nat): nat
    requires p + 1 + k / 4 < |cfg|
  {
    ByteOf(cfg[p + 1 + k / 4], k % 4)
  }

  // The word that holds four characters.
  function WordOf(text: seq<u8>, k: nat): nat {
    Char(text, k) + 0x100 * Char(text, k + 1) + 0x1_0000 * Char(text, k + 2) + 0x100_0000 * Char(text, k + 3)
  }

  // A character above 127 is negative where char is signed, and sets all bits above its own in
  // its word, the i-th; that does no harm where they are all to be set.
  predicate Unspilled(text: seq<u8>, i: nat) {
    var k := 4 * i;
    && (Char(text, k) >= 128 ==> Char(text, k + 1) == 255)
    && (Char(text, k + 1) >= 128 ==> Char(text, k + 2) == 255)
    && (Char(text, k + 2) >= 128 ==> Char(text, k + 3) == 255)
  }

  // ----- sign extension, shifts and ors

  function SignExtended(c: nat): u32
    requires c < 256
  {
    if c < 128 then c else U32_SIZE - 256 + c
  }

  lemma {:induction false} OrOnes(n: nat, y: nat)
    requires y < Pow2(n)
    ensures Or(Pow2(n) - 1, y) == Pow2(n) - 1
  {
    hide Or;
    if n > 0 {
      var p := Pow2(n - 1);
      assert Pow2(n) == 2 * p;
      OrHalves(2 * p - 1, y);
      OrOnes(n - 1, y / 2);
    } else {
      OrZero(0);
    }
  }

  // Bits that are all set absorb what is or-ed onto them.
  lemma Absorbs(low: nat, n: nat, m: nat, ones: nat, y: nat)
    requires low < Pow2(n) && y <= ones == Pow2(m) - 1
    ensures Or(low + ones * Pow2(n), y * Pow2(n)) == low + ones * Pow2(n)
  {
    ShlIsMul(ones, n);
    ShlIsMul(y, n);
    OrSplit(low, ones, y, n);
    OrOnes(m, y);
  }

  lemma Joins(low: nat, y: nat, n: nat)
    requires low < Pow2(n)
    ensures Or(low, y * Pow2(n)) == low + y * Pow2(n)
  {
    ShlIsMul(y, n);
    OrDisjoint(low, y, n);
  }

  lemma Powers()
    ensures Pow2(8) == 0x100 && Pow2(16) == 0x1_0000 && Pow2(24) == 0x100_0000
  {
    hide Pow2;
    Pow2Values();
    Pow2Add(8, 8);
    Pow2Add(16, 8);
    assert Pow2(8) == 0x100;
  }

  // A sign-extended character shifted by one, two or three bytes, in 32 bits.
  lemma Shifted(c: nat)
    requires c < 256
    ensures Shl(SignExtended(c), 8) % U32_SIZE == if c < 128 then 0x100 * c else U32_SIZE - 0x1_0000 + 0x100 * c
    ensures Shl(SignExtended(c), 16) % U32_SIZE == if c < 128 then 0x1_0000 * c else U32_SIZE - 0x100_0000 + 0x1_0000 * c
    ensures Shl(SignExtended(c), 24) % U32_SIZE == 0x100_0000 * c
  {
    hide Shl, Pow2;
    var s: nat := SignExtended(c);
    Powers();
    ShlIsMul(s, 8);
    ShlIsMul(s, 16);
    ShlIsMul(s, 24);
    if c >= 128 {
      ModUnique(0x100 * s, 0xFF, U32_SIZE - 0x1_0000 + 0x100 * c, U32_SIZE);
      ModUnique(0x1_0000 * s, 0xFFFF, U32_SIZE - 0x100_0000 + 0x1_0000 * c, U32_SIZE);
      ModUnique(0x100_0000 * s, 0xFF_FFFF, 0x100_0000 * c, U32_SIZE);
    }
  }

  // ----- what the writer makes of four characters

  function Packed(a: nat, b: nat, c: nat, d: nat): u32
    requires a < 256 && b < 256 && c < 256 && d < 256
  {
    Low32(Or(Or(Or(SignExtended(a), Shl(SignExtended(b), 8) % U32_SIZE), Shl(SignExtended(c), 16) % U32_SIZE),
             Shl(SignExtended(d), 24) % U32_SIZE))
  }

  lemma PackedIs(a: nat, b: nat, c: nat, d: nat)
    requires a < 256 && b < 256 && c < 256 && d < 256
    ensures Packed(a, b, c, d) ==
      if a >= 128 then U32_SIZE - 0x100 + a
      else if b >= 128 then U32_SIZE - 0x1_0000 + a + 0x100 * b
      else if c >= 128 then U32_SIZE - 0x100_0000 + a + 0x100 * b + 0x1_0000 * c
      else a + 0x100 * b + 0x1_0000 * c + 0x100_0000 * d
  {
    hide Or, Shl, Pow2;
    if a >= 128 {
      FirstSpills(a, b, c, d);
    } else if b >= 128 {
      SecondSpills(a, b, c, d);
    } else if c >= 128 {
      ThirdSpills(a, b, c, d);
    } else {
      NoneSpills(a, b, c, d);
    }
  }

  lemma FirstSpills(a: nat, b: nat, c: nat, d: nat)
    requires 128 <= a < 256 && b < 256 && c < 256 && d < 256
    ensures Packed(a, b, c, d) == U32_SIZE - 0x100 + a
  {
    hide Or, Shl, Pow2;
    Powers();
    Shifted(b);
    Shifted(c);
    Shifted(d);
    Absorbs(a, 8, 24, 0xFF_FFFF, if b < 128 then b else 0x100_0000 - 0x100 + b);
    Absorbs(a, 8, 24, 0xFF_FFFF, if c < 128 then 0x100 * c else 0x100_0000 - 0x1_0000 + 0x100 * c);
    Absorbs(a, 8, 24, 0xFF_FFFF, 0x1_0000 * d);
  }

  lemma SecondSpills(a: nat, b: nat, c: nat, d: nat)
    requires a < 128 <= b < 256 && c < 256 && d < 256
    ensures Packed(a, b, c, d) == U32_SIZE - 0x1_0000 + a + 0x100 * b
  {
    hide Or, Shl, Pow2;
    Powers();
    Shifted(b);
    Shifted(c);
    Shifted(d);
    Joins(a, 0x100_0000 - 0x100 + b, 8);
    Absorbs(a + 0x100 * b, 16, 16, 0xFFFF, if c < 128 then c else 0x1_0000 - 0x100 + c);
    Absorbs(a + 0x100 * b, 16, 16, 0xFFFF, 0x100 * d);
  }

  lemma ThirdSpills(a: nat, b: nat, c: nat, d: nat)
    requires a < 128 && b < 128 <= c < 256 && d < 256
    ensures Packed(a, b, c, d) == U32_SIZE - 0x100_0000 + a + 0x100 * b + 0x1_0000 * c
  {
    hide Or, Shl, Pow2;
    Powers();
    Shifted(b);
    Shifted(c);
    Shifted(d);
    Joins(a, b, 8);
    Joins(a + 0x100 * b, 0x1_0000 - 0x100 + c, 16);
    Absorbs(a + 0x100 * b + 0x1_0000 * c, 24, 8, 0xFF, d);
  }

  lemma NoneSpills(a: nat, b: nat, c: nat, d: nat)
    requires a < 128 && b < 128 && c < 128 && d < 256
    ensures Packed(a, b, c, d) == a + 0x100 * b + 0x1_0000 * c + 0x100_0000 * d
  {
    hide Or, Shl, Pow2;
    Powers();
    Shifted(b);
    Shifted(c);
    Shifted(d);
    Joins(a, b, 8);
    Joins(a + 0x100 * b, c, 16);
    Joins(a + 0x100 * b + 0x1_0000 * c, d, 24);
  }

  // The word is right exactly when no character spills.
  lemma TextWordExact(text: seq<u8>, i: nat)
    ensures TextWord(text, 4 * i) == WordOf(text, 4 * i) <==> Unspilled(text, i)
  {
    hide Or, Shl;
    var k := 4 * i;
    PackedIs(Char(text, k), Char(text, k + 1), Char(text, k + 2), Char(text, k + 3));
  }

  // ----- reading strings back

  ghost predicate ZeroFree(text: seq<u8>) {
    forall k :: 0 <= k < |text| ==> text[k] > 0
  }

  ghost predicate Ascii(text: seq<u8>) {
    forall k :: 0 <= k < |text| ==> 0 < text[k] < 128
  }

  // Strings without zeros, and without a character that spills over another.
  ghost predicate Plain(text: seq<u8>) {
    && ZeroFree(text)
    && (forall i: nat :: i <= |text| / 4 ==> Unspilled(text, i))
  }

  // 7-bit characters are always good.
  lemma AsciiIsPlain(text: seq<u8>)
    requires Ascii(text)
    ensures Plain(text)
  {
  }

  lemma BytesOfSum(a: nat, b: nat, c: nat, d: nat)
    requires a < 256 && b < 256 && c < 256 && d < 256
    ensures var w := a + 0x100 * b + 0x1_0000 * c + 0x100_0000 * d;
      w < U32_SIZE && ByteOf(w, 0) == a && ByteOf(w, 1) == b && ByteOf(w, 2) == c && ByteOf(w, 3) == d
  {
    var u, v: nat := c + 0x100 * d, b + 0x100 * (c + 0x100 * d);
    ModUnique(a + 0x100 * v, v, a, 0x100);
    ModUnique(b + 0x100 * u, u, b, 0x100);
    ModUnique(c + 0x100 * d, d, c, 0x100);
    ModUnique(a + 0x100 * v, u, a + 0x100 * b, 0x1_0000);
    ModUnique(a + 0x100 * v, d, a + 0x100 * b + 0x1_0000 * c, 0x100_0000);
    ModSmall(d, 0x100);
  }

  lemma SumOfBytes(w: u32)
    ensures w == ByteOf(w, 0) + 0x100 * ByteOf(w, 1) + 0x1_0000 * ByteOf(w, 2) + 0x100_0000 * ByteOf(w, 3)
  {
    var v, u: nat := w / 256, w / 0x1_0000;
    assert w == 256 * v + w % 256;
    assert v == 256 * u + v % 256 by {
      assert v / 256 == u;
    }
    assert u == 256 * (w / 0x100_0000) + u % 256 by {
      assert u / 256 == w / 0x100_0000;
    }
  }

  // A stored string reads back character by character, zero-terminated.
  lemma TextReads(cfg: seq<u32>, p: nat, text: seq<u8>, k: nat)
    requires HoldsText(cfg, p, text) && Plain(text) && k <= |text|
    ensures CharByte(cfg, p, k) == Char(text, k)
  {
    hide TextWord;
    var i := k / 4;
    assert cfg[p + 1 + i] == TextWord(text, 4 * i);
    TextWordExact(text, i);
    BytesOfSum(Char(text, 4 * i), Char(text, 4 * i + 1), Char(text, 4 * i + 2), Char(text, 4 * i + 3));
  }

  // A character only spills over those after it, so each word is right up to its first character
  // above 127.
  lemma BytesOfPacked(a: nat, b: nat, c: nat, d: nat)
    requires a < 256 && b < 256 && c < 256 && d < 256
    ensures var w := Packed(a, b, c, d);
      && ByteOf(w, 0) == a && (a < 128 ==> ByteOf(w, 1) == b)
      && (a < 128 && b < 128 ==> ByteOf(w, 2) == c) && (a < 128 && b < 128 && c < 128 ==> ByteOf(w, 3) == d)
  {
    hide Packed, ByteOf;
    PackedIs(a, b, c, d);
    BytesOfSum(a, 255, 255, 255);
    BytesOfSum(a, b, 255, 255);
    BytesOfSum(a, b, c, 255);
    BytesOfSum(a, b, c, d);
  }

  lemma TextWordPacked(text: seq<u8>, k: nat)
    ensures TextWord(text, k) == Packed(Char(text, k), Char(text, k + 1), Char(text, k + 2), Char(text, k + 3))
  {
    hide Or, Shl;
  }

  // Any stored string reads back up to and including its first character above 127.
  lemma PrefixReads(cfg: seq<u32>, p: nat, text: seq<u8>, k: nat)
    requires HoldsText(cfg, p, text) && k <= |text| && forall j :: 0 <= j < k ==> text[j] < 128
    ensures CharByte(cfg, p, k) == Char(text, k)
  {
    hide TextWord, Packed, ByteOf;
    var i := k / 4;
    assert cfg[p + 1 + i] == TextWord(text, 4 * i);
    TextWordPacked(text, 4 * i);
    BytesOfPacked(Char(text, 4 * i), Char(text, 4 * i + 1), Char(text, 4 * i + 2), Char(text, 4 * i + 3));
  }

  // The four bytes of a word are the characters that belong there.
  predicate WordReads(cfg: seq<u32>, p: nat, text: seq<u8>, i: nat)
    requires p + 1 + i < |cfg|
  {
    var w, k := cfg[p + 1 + i], 4 * i;
    && ByteOf(w, 0) == Char(text, k) && ByteOf(w, 1) == Char(text, k + 1)
    && ByteOf(w, 2) == Char(text, k + 2) && ByteOf(w, 3) == Char(text, k + 3)
  }

  // The words of a stored string are right exactly where none of its characters spills.
  lemma TextReadsExactly(cfg: seq<u32>, p: nat, text: seq<u8>, i: nat)
    requires HoldsText(cfg, p, text) && i <= |text| / 4
    ensures WordReads(cfg, p, text, i) <==> Unspilled(text, i)
  {
    hide TextWord, Unspilled, ByteOf;
    assert cfg[p + 1 + i] == TextWord(text, 4 * i);
    TextWordExact(text, i);
    BytesOfSum(Char(text, 4 * i), Char(text, 4 * i + 1), Char(text, 4 * i + 2), Char(text, 4 * i + 3));
    SumOfBytes(cfg[p + 1 + i]);
  }
}
