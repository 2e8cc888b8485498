// sim/serializationlanguage.cpp: the text of integers and booleans. A variable is the bytes it
// occupies, lowest first.
module ScalarText {
  import opened Arith
  import opened Bits
  import opened BlobText
  import opened Options

  // ----- integers in memory

  function Value(mem: seq<u8>): nat {
    if mem == [] then 0 else mem[0] + 256 * Value(mem[1..])
  }

  function Stored(v: nat, width: nat): (mem: seq<u8>)
    ensures |mem| == width
  {
    if width == 0 then [] else [v % 256] + Stored(v / 256, width - 1)
  }

  function Range(width: nat): (r: nat)
    ensures r > 0
  {
    if width == 0 then 1 else 256 * Range(width - 1)
  }

  lemma {:induction false} ValueInRange(mem: seq<u8>)
    ensures Value(mem) < Range(|mem|)
  {
    if mem != [] {
      ValueInRange(mem[1..]);
    }
  }

  // Storing looks at no more of a number than fits.
  lemma {:induction false} StoredValue(mem: seq<u8>, v: nat, k: nat)
    requires v == Value(mem) + k * Range(|mem|)
    ensures Stored(v, |mem|) == mem
  {
    if mem != [] {
      var high := Value(mem[1..]) + k * Range(|mem| - 1);
      assert v == mem[0] + 256 * high by {
        assert k * (256 * Range(|mem| - 1)) == 256 * (k * Range(|mem| - 1));
      }
      ModUnique(v, high, mem[0], 256);
      StoredValue(mem[1..], high, k);
    }
  }

  // ----- numbers as the C library reads them

  predicate IsDigitOf(c: char, base: nat) {
    IsHex(c) && HexValue(c) < base
  }

  function ReadDigits(text: string, base: nat, n: nat): nat {
    if text != [] && IsDigitOf(text[0], base) then ReadDigits(text[1..], base, n * base + HexValue(text[0])) else n
  }

  // strtoull with base 0, without a sign: hexadecimal, octal or decimal by prefix.
  function ReadMagnitude(text: string): Option<nat> {
    if |text| >= 3 && text[0] == '0' && (text[1] == 'x' || text[1] == 'X') && IsHex(text[2]) then Some(ReadDigits(text[2..], 16, 0))
    else if text == [] || !IsDigit(text[0]) then None
    else Some(ReadDigits(text, if text[0] == '0' then 8 else 10, 0))
  }

  // stoull; a value that does not fit is an error.
  function ReadUnsigned(text: string): Option<nat> {
    var m := ReadMagnitude(if text != [] && text[0] == '+' then text[1..] else text);
    if m.Some? && m.value < U64_SIZE then m else None
  }

  // stoll of a text that starts with a minus sign.
  function ReadNegative(text: string): Option<int>
    requires text != []
  {
    var m := ReadMagnitude(text[1..]);
    if m.Some? && m.value <= U64_SIZE / 2 then Some(0 - m.value) else None
  }

  function Hexadecimal(v: nat): string {
    if v < 16 then [HexChar(v)] else Hexadecimal(v / 16) + [HexChar(v % 16)]
  }

  lemma {:induction false} ReadHexadecimal(v: nat, more: string)
    ensures ReadDigits(Hexadecimal(v) + more, 16, 0) == ReadDigits(more, 16, v)
  {
    if v >= 16 {
      var last := [HexChar(v % 16)];
      ReadHexadecimal(v / 16, last + more);
      assert Hexadecimal(v) + more == Hexadecimal(v / 16) + (last + more);
      assert (last + more)[1..] == more;
    } else {
      assert (Hexadecimal(v) + more)[1..] == more;
    }
  }

  lemma {:induction false} HexadecimalStart(v: nat)
    ensures Hexadecimal(v) != [] && IsHex(Hexadecimal(v)[0])
    ensures forall i :: 0 <= i < |Hexadecimal(v)| ==> IsHex(Hexadecimal(v)[i])
  {
    if v >= 16 {
      HexadecimalStart(v / 16);
    }
  }

  // ----- words

  function ReadWord(text: string): (r: (string, string))
    ensures |r.1| <= |text|
  {
    if text == [] || IsSpace(text[0]) then ("", text)
    else
      var (word, rest) := ReadWord(text[1..]);
      ([text[0]] + word, rest)
  }

  predicate IsWord(word: string) {
    word != [] && forall i :: 0 <= i < |word| ==> !IsSpace(word[i])
  }

  // The end of the input, or a blank.
  predicate EndsWord(rest: string) {
    rest != [] ==> IsSpace(rest[0])
  }

  lemma {:induction false} ReadWholeWord(word: string, rest: string)
    requires EndsWord(rest) && forall i :: 0 <= i < |word| ==> !IsSpace(word[i])
    ensures ReadWord(word + rest) == (word, rest)
  {
    if word == [] {
      assert word + rest == rest;
    } else {
      assert (word + rest)[1..] == word[1..] + rest;
      ReadWholeWord(word[1..], rest);
      assert word == [word[0]] + word[1..];
    }
  }

  // ----- RenderInteger, LoadInteger

  predicate IsMachineWidth(width: nat) {
    width == 1 || width == 2 || width == 4 || width == 8
  }

  // All bits set prints as all bits set of the widest type.
  function Widened(mem: seq<u8>): nat {
    if Value(mem) == Range(|mem|) - 1 then U64_SIZE - 1 else Value(mem)
  }

  function RenderInteger(mem: seq<u8>, compact: bool): string {
    if !IsMachineWidth(|mem|) then "xi " + RenderBlob(mem, compact)
    else
      var v := Widened(mem);
      if compact && v < 10 then [HexChar(v)]
      else if compact && v == U64_SIZE - 1 then "-1"
      else "0x" + Hexadecimal(v)
  }

  datatype Result = Ok(mem: seq<u8>, rest: string) | Error

  function LoadInteger(mem: seq<u8>, text: string): Result {
    var (word, rest) := ReadWord(SkipSpace(text));
    if word == "" then Error
    else if word == "xi" then
      var r := LoadBlob(mem, rest);
      if r.Going? then Ok(r.state.buf, r.state.text) else Error
    else if word[0] == '-' then
      var v := ReadNegative(word);
      if v.Some? && IsMachineWidth(|mem|) then Ok(Stored(v.value % Range(|mem|), |mem|), rest) else Error
    else
      var v := ReadUnsigned(word);
      if v.Some? && IsMachineWidth(|mem|) then Ok(Stored(v.value, |mem|), rest) else Error
  }

  lemma Ranges()
    ensures Range(1) == 0x100 && Range(2) == 0x1_0000 && Range(4) == 0x1_0000_0000 && Range(8) == U64_SIZE
  {
    assert Range(3) == 0x100_0000;
    assert Range(5) == 256 * Range(4) && Range(6) == 256 * Range(5) && Range(7) == 256 * Range(6);
  }

  // How many times the range of a width goes into that of the widest.
  function Times(width: nat): nat {
    if width == 1 then 0x100_0000_0000_0000 else if width == 2 then 0x1_0000_0000_0000 else if width == 4 then 0x1_0000_0000 else 1
  }

  // The widest all-ones is all ones in every width.
  lemma StoredWidened(mem: seq<u8>)
    requires IsMachineWidth(|mem|)
    ensures Widened(mem) < U64_SIZE && Stored(Widened(mem), |mem|) == mem
    ensures Widened(mem) == U64_SIZE - 1 ==> Value(mem) == Range(|mem|) - 1
  {
    hide Value, Range, Stored;
    var r := Range(|mem|);
    Ranges();
    ValueInRange(mem);
    assert U64_SIZE == Times(|mem|) * r;
    if Value(mem) == r - 1 {
      Distribute(Times(|mem|), r);
      StoredValue(mem, U64_SIZE - 1, Times(|mem|) - 1);
    } else {
      StoredValue(mem, Value(mem), 0);
    }
  }

  lemma Distribute(k: nat, r: nat)
    requires k > 0
    ensures k * r - 1 == (r - 1) + (k - 1) * r
  {
  }

  lemma ReadDigit(v: nat, word: string)
    requires v < 10 && word == [HexChar(v)]
    ensures IsWord(word) && word != "xi" && word[0] != '-' && ReadUnsigned(word) == Some(v)
  {
    assert word[1..] == "";
    assert ReadDigits("", 8, v) == v && ReadDigits("", 10, v) == v;
    assert HexValue(word[0]) == v && (v > 0 ==> word[0] != '0');
    assert ReadDigits(word, 10, 0) == ReadDigits("", 10, v);
  }

  lemma ReadMinusOne()
    ensures IsWord("-1") && ReadNegative("-1") == Some(-1)
  {
    assert "-1"[1..] == "1" && "1"[1..] == "";
    assert ReadDigits("1", 10, 0) == 1;
  }

  lemma ReadPrefixed(v: nat, word: string)
    requires v < U64_SIZE && word == "0x" + Hexadecimal(v)
    ensures IsWord(word) && word != "xi" && word[0] != '-' && ReadUnsigned(word) == Some(v)
  {
    hide Hexadecimal;
    HexadecimalStart(v);
    ReadHexadecimal(v, "");
    assert word[2..] == Hexadecimal(v) && Hexadecimal(v) + "" == Hexadecimal(v);
    assert ReadDigits("", 16, v) == v;
  }

  lemma ReadRendered(mem: seq<u8>, compact: bool)
    requires IsMachineWidth(|mem|)
    ensures var word := RenderInteger(mem, compact);
      && IsWord(word) && word != "xi"
      && (if word[0] == '-' then ReadNegative(word) == Some(-1) && Value(mem) == Range(|mem|) - 1
          else ReadUnsigned(word) == Some(Widened(mem)))
  {
    hide Value, Range, Hexadecimal, ReadUnsigned, ReadNegative, Widened;
    var v, word := Widened(mem), RenderInteger(mem, compact);
    StoredWidened(mem);
    if compact && v < 10 {
      ReadDigit(v, word);
    } else if compact && v == U64_SIZE - 1 {
      ReadMinusOne();
    } else {
      ReadPrefixed(v, word);
    }
  }

  // Loading a printed integer of any width gives it back and leaves exactly what followed it.
  lemma RoundTripInteger(mem: seq<u8>, compact: bool, was: seq<u8>, rest: string)
    requires |was| == |mem| < U64_SIZE && EndsWord(rest)
    ensures LoadInteger(was, RenderInteger(mem, compact) + rest) == Ok(mem, (if mem == [] then " " else "") + rest)
  {
    if IsMachineWidth(|mem|) {
      RoundTripWord(mem, compact, was, rest);
    } else {
      RoundTripWide(mem, compact, was, rest);
    }
  }

  lemma RoundTripWord(mem: seq<u8>, compact: bool, was: seq<u8>, rest: string)
    requires |was| == |mem| && IsMachineWidth(|mem|) && EndsWord(rest)
    ensures LoadInteger(was, RenderInteger(mem, compact) + rest) == Ok(mem, rest)
  {
    hide RenderInteger, ReadUnsigned, ReadNegative, LoadBlob, ReadWord, Widened, Value, Range;
    var word := RenderInteger(mem, compact);
    ReadRendered(mem, compact);
    ReadWholeWord(word, rest);
    assert (word + rest)[0] == word[0];
    StoredWidened(mem);
    if word[0] == '-' {
      ValueInRange(mem);
      MinusOne(Range(|mem|));
      StoredValue(mem, Range(|mem|) - 1, 0);
    }
  }

  lemma RoundTripWide(mem: seq<u8>, compact: bool, was: seq<u8>, rest: string)
    requires |was| == |mem| < U64_SIZE && !IsMachineWidth(|mem|) && EndsWord(rest)
    ensures LoadInteger(was, RenderInteger(mem, compact) + rest) == Ok(mem, (if mem == [] then " " else "") + rest)
  {
    hide RenderInteger, ReadUnsigned, ReadNegative, RenderBlob, LoadBlob, ReadWord;
    var blob := " " + RenderBlob(mem, compact) + rest;
    RenderedWide(mem, compact);
    assert RenderInteger(mem, compact) + rest == "xi" + blob;
    ReadWholeWord("xi", blob);
    RoundTrip(mem, compact, was, rest);
    LoadBlobSkips(was, RenderBlob(mem, compact) + rest);
    assert blob == " " + (RenderBlob(mem, compact) + rest);
  }

  lemma MinusOne(n: nat)
    requires n > 0
    ensures -1 % n == n - 1
  {
  }

  lemma RenderedWide(mem: seq<u8>, compact: bool)
    requires !IsMachineWidth(|mem|)
    ensures RenderInteger(mem, compact) == "xi" + (" " + RenderBlob(mem, compact))
  {
    assert "xi " == "xi" + " ";
  }

  lemma LoadBlobSkips(mem: seq<u8>, text: string)
    ensures LoadBlob(mem, " " + text) == LoadBlob(mem, text)
  {
    assert (" " + text)[1..] == text;
  }

  // ----- RenderBoolean, LoadBoolean

  function RenderBoolean(b: bool, compact: bool): string {
    if compact then if b then "1" else "0" else if b then "true" else "false"
  }

  function Lower(text: string): (r: string)
    ensures |r| == |text|
  {
    seq(|text|, i requires 0 <= i < |text| => if 'A' <= text[i] <= 'Z' then (text[i] as int + 32) as char else text[i])
  }

  function LoadBoolean(text: string): Option<(bool, string)> {
    var (word, rest) := ReadWord(SkipSpace(text));
    var s := Lower(word);
    if s == "yes" || s == "true" || s == "1" then Some((true, rest))
    else if s == "no" || s == "false" || s == "0" then Some((false, rest))
    else None
  }

  lemma RoundTripBoolean(b: bool, compact: bool, rest: string)
    requires EndsWord(rest)
    ensures LoadBoolean(RenderBoolean(b, compact) + rest) == Some((b, rest))
  {
    var word := RenderBoolean(b, compact);
    ReadWholeWord(word, rest);
    assert (word + rest)[0] == word[0];
    assert Lower(word) == word;
  }
}
