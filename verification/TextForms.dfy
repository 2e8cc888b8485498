// sim/serializationlanguage.cpp: the forms of the language one by one, as the comments there give
// them. What each makes of the buffer, and when it is printed.
module TextForms {
  import opened Arith
  import opened Bits
  import opened BlobText
  import opened BitVectorText
  import opened ScalarText
  import opened Options

  const DIGITS := "0123456789"
  const HEX_DIGITS := "0123456789abcdef"
  const HEX_CAPITALS := "0123456789ABCDEF"

  lemma DigitIs(d: nat)
    requires d < 10
    ensures IsDigit(DIGITS[d]) && HexValue(DIGITS[d]) == d && HexChar(d) == DIGITS[d]
  {
  }

  lemma HexDigitIs(d: nat)
    requires d < 16
    ensures IsHex(HEX_DIGITS[d]) && HexValue(HEX_DIGITS[d]) == d && HexChar(d) == HEX_DIGITS[d]
    ensures IsHex(HEX_CAPITALS[d]) && HexValue(HEX_CAPITALS[d]) == d
  {
  }

  // ----- numbers

  // The number that digits stand for in some base.
  ghost function Positional(digits: seq<nat>, base: nat): nat {
    if digits == [] then 0 else Positional(digits[..|digits| - 1], base) * base + digits[|digits| - 1]
  }

  ghost predicate Spells(text: string, digits: seq<nat>, letters: string) {
    |text| == |digits| && forall i :: 0 <= i < |digits| ==> digits[i] < |letters| && text[i] == letters[digits[i]]
  }

  lemma {:induction false} ReadsNumber(text: string, digits: seq<nat>, more: string, n: nat)
    requires Spells(text, digits, DIGITS)
    ensures ReadNumber(text + more, n) == ReadNumber(more, Appended(n, digits, 10))
    decreases |digits|
  {
    hide HexValue, HexChar;
    if digits == [] {
      assert text + more == more;
    } else {
      assert (text + more)[1..] == text[1..] + more;
      DigitIs(digits[0]);
      ReadsNumber(text[1..], digits[1..], more, n * 10 + digits[0]);
    }
  }

  // More digits behind a number.
  ghost function Appended(n: nat, digits: seq<nat>, base: nat): nat
    decreases |digits|
  {
    if digits == [] then n else Appended(n * base + digits[0], digits[1..], base)
  }

  lemma {:induction false} AppendedLast(n: nat, digits: seq<nat>, base: nat)
    requires digits != []
    ensures Appended(n, digits, base) == Appended(n, digits[..|digits| - 1], base) * base + digits[|digits| - 1]
    decreases |digits|
  {
    if |digits| > 1 {
      AppendedLast(n * base + digits[0], digits[1..], base);
      assert digits[1..][..|digits| - 2] == digits[..|digits| - 1][1..];
    }
  }

  lemma {:induction false} AppendedIs(digits: seq<nat>, base: nat)
    ensures Appended(0, digits, base) == Positional(digits, base)
    decreases |digits|
  {
    if digits != [] {
      AppendedLast(0, digits, base);
      AppendedIs(digits[..|digits| - 1], base);
    }
  }

  lemma PositionalDigit(d: nat, base: nat)
    ensures Positional([d], base) == d
  {
    assert [d][..0] == [];
  }

  // A number is printed in decimal digits, without a zero in front.
  lemma {:induction false} DecimalForm(n: nat) returns (digits: seq<nat>)
    ensures Spells(Decimal(n), digits, DIGITS) && Positional(digits, 10) == n
    ensures digits != [] && (n > 0 ==> digits[0] > 0) && (n == 0 ==> digits == [0])
  {
    hide HexValue, HexChar;
    if n < 10 {
      digits := [n];
      DigitIs(n);
      PositionalDigit(n, 10);
    } else {
      var high := DecimalForm(n / 10);
      digits := high + [n % 10];
      DigitIs(n % 10);
      assert digits[..|digits| - 1] == high;
    }
  }

  // Digits that nothing continues are read as the number they stand for.
  lemma NumberForm(text: string, digits: seq<nat>, more: string)
    requires Spells(text, digits, DIGITS) && (more != [] ==> !('0' <= more[0] <= '9'))
    ensures ReadNumber(text + more, 0) == (Positional(digits, 10), more)
  {
    ReadsNumber(text, digits, more, 0);
    AppendedIs(digits, 10);
  }

  // ----- what the loader makes of each form of bytes

  // Two hexadecimal digits are a byte.
  lemma ByteForm(st: Blob, h: nat, l: nat, more: string)
    requires st.dst < |st.buf| && h < 16 && l < 16
    ensures ReadItem(st.(text := [HEX_DIGITS[h], HEX_DIGITS[l]] + more))
         == ReadItem(st.(text := [HEX_CAPITALS[h], HEX_CAPITALS[l]] + more))
         == Going(Blob(st.buf[st.dst := 16 * h + l], st.dst + 1, 16 * h + l, more))
  {
    hide ReadItem, IsHex, HexChar, HexValue;
    HexDigitIs(h);
    HexDigitIs(l);
    ReadsPair(st, HEX_DIGITS[h], HEX_DIGITS[l], more);
    ReadsPair(st, HEX_CAPITALS[h], HEX_CAPITALS[l], more);
  }

  lemma ReadsPair(st: Blob, c: char, d: char, more: string)
    requires st.dst < |st.buf| && IsHex(c) && IsHex(d)
    ensures var b := 16 * HexValue(c) + HexValue(d);
      ReadItem(st.(text := [c, d] + more)) == Going(Blob(st.buf[st.dst := b], st.dst + 1, b, more))
  {
    hide HexValue;
    assert ([c, d] + more)[1..] == [d] + more && ([d] + more)[1..] == more;
  }

  // A star, binary digits and a point are the byte of the last eight of them.
  lemma BinaryForm(st: Blob, text: string, bits: seq<nat>, more: string)
    requires st.dst < |st.buf| && Spells(text, bits, "01")
    ensures var b := Positional(bits, 2) % 256;
      ReadItem(st.(text := "*" + text + "." + more)) == Going(Blob(st.buf[st.dst := b], st.dst + 1, b, more))
  {
    hide HexValue, IsHex, IsDigit, Spells;
    assert ("*" + text + "." + more)[1..] == text + ("." + more);
    ReadsBits(text, bits, "." + more, 0);
    AppendedIs(bits, 2);
    assert ("." + more)[1..] == more;
  }

  lemma {:induction false} ReadsBits(text: string, bits: seq<nat>, more: string, n: nat)
    requires Spells(text, bits, "01") && more != [] && more[0] == '.'
    ensures ReadBits(text + more, n % 256) == (Appended(n, bits, 2) % 256, more)
    decreases |bits|
  {
    hide HexValue;
    if bits == [] {
      assert text + more == more;
    } else {
      assert (text + more)[1..] == text[1..] + more;
      assert text[0] == "01"[bits[0]] && (text + more)[0] == text[0];
      DigitIs(bits[0]);
      assert "01"[bits[0]] == DIGITS[bits[0]];
      assert (n % 256 * 2 + bits[0]) % 256 == (n * 2 + bits[0]) % 256;
      ReadsBits(text[1..], bits[1..], more, n * 2 + bits[0]);
    }
  }

  // Characters between double quotes are those bytes, if there is room for them.
  lemma StringForm(st: Blob, chars: string, more: string)
    requires st.dst < |st.buf| && '"' !in chars && forall i :: 0 <= i < |chars| ==> chars[i] as nat < 256
    ensures ReadItem(st.(text := "\"" + chars + "\"" + more)) ==
      if st.dst + |chars| > |st.buf| then Failed
      else Going(Blob(Over(st.buf, st.dst, Codes(chars)), st.dst + |chars|,
                      if chars == [] then st.last else chars[|chars| - 1] as nat, more))
  {
    hide HexValue, IsHex, IsDigit, Over, Codes;
    assert ("\"" + chars + "\"" + more)[1..] == chars + ("\"" + more);
    ReadsString(st, chars, more);
  }

  ghost function Codes(chars: string): (codes: seq<u8>)
    requires forall i :: 0 <= i < |chars| ==> chars[i] as nat < 256
    ensures |codes| == |chars| && forall i :: 0 <= i < |chars| ==> codes[i] == chars[i] as nat
  {
    seq(|chars|, i requires 0 <= i < |chars| => chars[i] as nat)
  }

  // A buffer with some places written over, from a place on.
  ghost function Over<T>(buf: seq<T>, at: nat, data: seq<T>): (r: seq<T>)
    requires at + |data| <= |buf|
    ensures |r| == |buf|
    ensures forall i :: 0 <= i < |buf| ==> r[i] == if at <= i < at + |data| then data[i - at] else buf[i]
  {
    buf[..at] + data + buf[at + |data|..]
  }

  lemma {:induction false} ReadsString(st: Blob, chars: string, more: string)
    requires st.dst <= |st.buf| && '"' !in chars && forall i :: 0 <= i < |chars| ==> chars[i] as nat < 256
    ensures ReadString(st.(text := chars + ("\"" + more))) ==
      if st.dst + |chars| > |st.buf| then Failed
      else Going(Blob(Over(st.buf, st.dst, Codes(chars)), st.dst + |chars|,
                      if chars == [] then st.last else chars[|chars| - 1] as nat, more))
    decreases |chars|
  {
    var text := chars + ("\"" + more);
    if chars == [] {
      hide *;
      ReadsQuote(st, more);
    } else {
      hide Codes, ReadString, Over;
      ReadsChar(st, chars, more);
      if st.dst < |st.buf| {
        ReadsString(Put(st, chars[0] as nat), chars[1..], more);
        if st.dst + |chars| <= |st.buf| {
          OverFirst(st.buf, st.dst, chars);
        }
      }
    }
  }

  lemma ReadsQuote(st: Blob, more: string)
    requires st.dst <= |st.buf|
    ensures ReadString(st.(text := [] + ("\"" + more))) == Going(Blob(Over(st.buf, st.dst, Codes([])), st.dst + 0, st.last, more))
  {
    assert ([] + ("\"" + more))[1..] == more;
    assert Over(st.buf, st.dst, Codes([])) == st.buf;
  }

  lemma ReadsChar(st: Blob, chars: string, more: string)
    requires st.dst <= |st.buf| && chars != [] && chars[0] != '"' && chars[0] as nat < 256
    ensures ReadString(st.(text := chars + ("\"" + more))) ==
      if st.dst >= |st.buf| then Failed else ReadString(Put(st, chars[0] as nat).(text := chars[1..] + ("\"" + more)))
  {
    assert (chars + ("\"" + more))[1..] == chars[1..] + ("\"" + more);
  }

  lemma OverFirst(buf: seq<u8>, at: nat, chars: string)
    requires chars != [] && at + |chars| <= |buf| && forall i :: 0 <= i < |chars| ==> chars[i] as nat < 256
    ensures Over(buf, at, Codes(chars)) == Over(buf[at := chars[0] as nat], at + 1, Codes(chars[1..]))
  {
  }

  ghost function Copies<T>(b: T, k: nat): (r: seq<T>)
    ensures |r| == k && forall i :: 0 <= i < k ==> r[i] == b
  {
    seq(k, _ => b)
  }

  // As many places as are left, of n.
  ghost function Room(size: nat, at: nat, n: nat): nat {
    if at >= size then 0 else if n <= size - at then n else size - at
  }

  lemma {:induction false} FillForm(st: Blob, b: u8, n: nat)
    ensures var k := Room(|st.buf|, st.dst, n);
      && (k > 0 ==> st.dst + k <= |st.buf|)
      && Fill(st, b, n) == if k == 0 then st else Blob(Over(st.buf, st.dst, Copies(b, k)), st.dst + k, b, st.text)
    decreases n
  {
    if n > 0 && st.dst < |st.buf| {
      FillForm(Put(st, b), b, n - 1);
      var k := Room(|st.buf|, st.dst, n);
      assert Fill(st, b, n).buf == Over(st.buf, st.dst, Copies(b, k));
    }
  }

  // A plus sign, a number and a letter: skip, go to a place, write zeros, repeat the last byte. The
  // number counts in 64 bits, and writing ends with the buffer.
  lemma RepeatForm(st: Blob, text: string, digits: seq<nat>, c: char, more: string)
    requires st.dst < |st.buf| && Spells(text, digits, DIGITS) && !('0' <= c <= '9')
    ensures var n := Positional(digits, 10) % 0x1_0000_0000_0000_0000;
      var k := Room(|st.buf|, st.dst, n);
      st.dst + k <= |st.buf| && ReadItem(st.(text := "+" + text + [c] + more)) ==
        if c == '.' then Going(Blob(st.buf, st.dst + n, st.last, more))
        else if c == '@' then if n > |st.buf| then Failed else Going(Blob(st.buf, n, st.last, more))
        else if c == 'z' || c == 'Z' then
          Going(if k == 0 then st.(text := more) else Blob(Over(st.buf, st.dst, Copies(0 as u8, k)), st.dst + k, 0, more))
        else if c == 'r' || c == 'R' then
          Going(if k == 0 then st.(text := more) else Blob(Over(st.buf, st.dst, Copies(st.last, k)), st.dst + k, st.last, more))
        else Failed
  {
    hide HexValue, IsHex, Spells, Fill, Over, Positional, ReadNumber, ReadRepeat;
    assert ("+" + text + [c] + more)[1..] == text + ([c] + more);
    ReadsRepeat(st.(text := text + ([c] + more)), text, digits, c, more);
    var n := Positional(digits, 10) % U64_SIZE;
    FillForm(st.(text := more), 0, n);
    FillForm(st.(text := more), st.last, n);
  }

  lemma ReadsRepeat(st: Blob, text: string, digits: seq<nat>, c: char, more: string)
    requires st.text == text + ([c] + more) && Spells(text, digits, DIGITS) && !('0' <= c <= '9')
    ensures var n, t := Positional(digits, 10) % U64_SIZE, st.(text := more);
      ReadRepeat(st) ==
        if c == '.' then Going(t.(dst := t.dst + n))
        else if c == '@' then if n > |st.buf| then Failed else Going(t.(dst := n))
        else if c == 'z' || c == 'Z' then Going(Fill(t, 0, n))
        else if c == 'r' || c == 'R' then Going(Fill(t, t.last, n))
        else Failed
  {
    hide Spells, Fill, Positional, ReadNumber;
    NumberForm(text, digits, [c] + more);
    assert ([c] + more)[1..] == more;
  }

  // Blanks and underscores mean nothing.
  lemma BlankForm(st: Blob, c: char, more: string)
    requires st.dst < |st.buf| && c in "_ \t\n\r"
    ensures ReadItem(st.(text := [c] + more)) == Going(st.(text := more))
  {
    assert ([c] + more)[1..] == more;
  }

  // Everything else is an error.
  lemma WrongForm(st: Blob, c: char, more: string)
    requires st.dst < |st.buf| && c !in "_ \t\n\r*\"+" && c !in HEX_DIGITS && c !in HEX_CAPITALS && !(c as int in {11, 12})
    ensures ReadItem(st.(text := [c] + more)) == Failed
  {
    if IsHex(c) {
      HexIsDigit(c);
    }
  }

  lemma HexIsDigit(c: char)
    requires IsHex(c)
    ensures c in HEX_DIGITS || c in HEX_CAPITALS
  {
    var d := HexValue(c);
    assert HEX_DIGITS[d] == c || HEX_CAPITALS[d] == c;
  }

  // ----- how bytes are printed

  ghost predicate Printable(b: u8) {
    33 <= b <= 126 && b != 34
  }

  ghost function Pair(b: u8): string {
    [HEX_DIGITS[b / 16], HEX_DIGITS[b % 16]]
  }

  lemma PairIs(b: u8)
    ensures HexPair(b) == Pair(b)
  {
    hide HexChar;
    HexDigitIs(b / 16);
    HexDigitIs(b % 16);
  }

  // The bytes from s on are n alike, and no more.
  ghost predicate RunOf<T>(items: seq<T>, s: nat, n: nat) {
    && n >= 1 && s + n <= |items| && (forall i :: s <= i < s + n ==> items[i] == items[s])
    && (s + n == |items| || items[s + n] != items[s])
  }

  lemma {:induction false} RunIsSame<T>(items: seq<T>, s: nat, n: nat)
    requires RunOf(items, s, n)
    ensures Same(items, s) == n
    decreases n
  {
    if n > 1 {
      assert items[s + 1] == items[s];
      RunIsSame(items, s + 1, n - 1);
    }
  }

  // In front of three printable bytes, unless those are alike, a string is printed.
  ghost predicate StringStarts(bytes: seq<u8>, s: nat, n: nat) {
    s + 2 < |bytes| && Printable(bytes[s]) && Printable(bytes[s + 1]) && Printable(bytes[s + 2]) && n < 3
  }

  lemma StartIs(bytes: seq<u8>, s: nat, n: nat)
    requires RunOf(bytes, s, n)
    ensures StartsQuoted(bytes, s) <==> StringStarts(bytes, s, n)
  {
    if s + 2 < |bytes| {
      assert Triple(bytes, s) <==> n >= 3;
    }
  }

  // Otherwise zeros are counted, other bytes are given once and the repetitions counted.
  lemma CompactForms(bytes: seq<u8>, s: nat, n: nat)
    requires RunOf(bytes, s, n) && !StringStarts(bytes, s, n)
    ensures RenderItems(bytes, s, true) ==
      (if n == 1 then Pair(bytes[s])
       else if bytes[s] == 0 then "+" + Decimal(n) + "z"
       else Pair(bytes[s]) + "+" + Decimal(n - 1) + "r") + RenderItems(bytes, s + n, true)
  {
    hide RenderItems, Decimal, HexPair, StartsQuoted, Chars, Pair;
    RunIsSame(bytes, s, n);
    StartIs(bytes, s, n);
    PairIs(bytes[s]);
    RenderStep(bytes, s, true);
  }

  ghost predicate ThreeAlike(bytes: seq<u8>, s: nat) {
    s + 2 < |bytes| && bytes[s] == bytes[s + 1] == bytes[s + 2]
  }

  // A string goes on as far as bytes are printable and no three are alike.
  lemma StringPrinted(bytes: seq<u8>, s: nat, n: nat)
    requires s + 2 < |bytes| && Printable(bytes[s]) && Printable(bytes[s + 1]) && Printable(bytes[s + 2])
    requires n >= 1 && s + n <= |bytes| && forall i :: s <= i < s + n ==> Printable(bytes[i]) && !ThreeAlike(bytes, i)
    requires s + n < |bytes| ==> !Printable(bytes[s + n]) || ThreeAlike(bytes, s + n)
    ensures RenderItems(bytes, s, true) ==
      "\"" + seq(n, i requires 0 <= i < n => bytes[s + i] as char) + "\"" + RenderItems(bytes, s + n, true)
  {
    hide RenderItems, Decimal, HexPair;
    QuotableIs(bytes, s, n);
    RenderStep(bytes, s, true);
    assert Chars(bytes[s..s + n]) == seq(n, i requires 0 <= i < n => bytes[s + i] as char);
  }

  lemma {:induction false} QuotableIs(bytes: seq<u8>, s: nat, n: nat)
    requires s + n <= |bytes| && forall i :: s <= i < s + n ==> Printable(bytes[i]) && !ThreeAlike(bytes, i)
    requires s + n < |bytes| ==> !Printable(bytes[s + n]) || ThreeAlike(bytes, s + n)
    ensures Quotable(bytes, s) == n
    decreases n
  {
    if n > 0 {
      QuotableIs(bytes, s + 1, n - 1);
    }
  }

  // Not compact, each byte is two digits, and an underscore comes in front of every eighth; the number
  // of bytes comes first.
  lemma PlainForm(bytes: seq<u8>, s: nat)
    requires s < |bytes|
    ensures RenderItems(bytes, s, false) ==
      (if s > 0 && s % 8 == 0 then "_" else "") + Pair(bytes[s]) + RenderItems(bytes, s + 1, false)
  {
    PairIs(bytes[s]);
    RenderStep(bytes, s, false);
  }

  lemma SizeFirst(bytes: seq<u8>, compact: bool)
    ensures RenderBlob(bytes, compact) == Decimal(|bytes|) + " " + RenderItems(bytes, 0, compact)
    ensures RenderItems(bytes, |bytes|, compact) == ""
  {
  }

  // ----- bit vectors

  lemma BitForm(st: Vector, bit: bool, more: string)
    requires st.dst < |st.buf|
    ensures ReadBit(st.(text := (if bit then "1" else "0") + more)) == Going(Vector(st.buf[st.dst := bit], st.dst + 1, more))
  {
    assert ("1" + more)[1..] == more && ("0" + more)[1..] == more;
  }

  lemma {:induction false} FillBitsForm(st: Vector, bit: bool, n: nat)
    ensures var k := Room(|st.buf|, st.dst, n);
      && (k > 0 ==> st.dst + k <= |st.buf|)
      && FillBits(st, bit, n) == if k == 0 then st else Vector(Over(st.buf, st.dst, Copies(bit, k)), st.dst + k, st.text)
    decreases n
  {
    if n > 0 && st.dst < |st.buf| {
      FillBitsForm(PutBit(st, bit), bit, n - 1);
      var k := Room(|st.buf|, st.dst, n);
      assert FillBits(st, bit, n).buf == Over(st.buf, st.dst, Copies(bit, k));
    }
  }

  // A sign, a number and a point are as many bits, all set behind a plus, all clear behind a minus.
  lemma BitRunForm(st: Vector, bit: bool, text: string, digits: seq<nat>, more: string)
    requires st.dst < |st.buf| && Spells(text, digits, DIGITS)
    ensures var k := Room(|st.buf|, st.dst, Positional(digits, 10) % 0x1_0000_0000_0000_0000);
      st.dst + k <= |st.buf| && ReadBit(st.(text := (if bit then "+" else "-") + text + "." + more)) ==
        Going(if k == 0 then st.(text := more) else Vector(Over(st.buf, st.dst, Copies(bit, k)), st.dst + k, more))
  {
    hide Spells, FillBits, Over, Positional, ReadNumber;
    assert ((if bit then "+" else "-") + text + "." + more)[1..] == text + ("." + more);
    NumberForm(text, digits, "." + more);
    assert ("." + more)[1..] == more;
    FillBitsForm(st.(text := more), bit, Positional(digits, 10) % U64_SIZE);
  }

  // Compact, three bits or more that are alike are counted; otherwise each is a digit.
  lemma BitsPrinted(bits: seq<bool>, s: nat, n: nat, compact: bool)
    requires RunOf(bits, s, n)
    ensures RenderBitItems(bits, s, compact) ==
      if compact && n >= 3 then (if bits[s] then "+" else "-") + Decimal(n) + "." + RenderBitItems(bits, s + n, compact)
      else (if !compact && s > 0 && s % 8 == 0 then "_" else "") + (if bits[s] then "1" else "0") + RenderBitItems(bits, s + 1, compact)
    ensures RenderBits(bits, compact) == Decimal(|bits|) + " " + RenderBitItems(bits, 0, compact)
  {
    hide Decimal;
    RunIsSame(bits, s, n);
  }

  // ----- integers

  function At(mem: seq<u8>, i: nat): nat
    requires i < |mem|
  {
    mem[i]
  }

  // Bytes in memory, the lowest first, for each width of a machine.
  lemma ValueIs(mem: seq<u8>)
    ensures |mem| == 1 ==> Value(mem) == At(mem, 0)
    ensures |mem| == 2 ==> Value(mem) == At(mem, 0) + 0x100 * At(mem, 1)
    ensures |mem| == 4 ==> Value(mem) == At(mem, 0) + 0x100 * At(mem, 1) + 0x1_0000 * At(mem, 2) + 0x100_0000 * At(mem, 3)
    ensures |mem| == 8 ==>
      Value(mem) == At(mem, 0) + 0x100 * At(mem, 1) + 0x1_0000 * At(mem, 2) + 0x100_0000 * At(mem, 3)
                    + 0x1_0000_0000 * (At(mem, 4) + 0x100 * At(mem, 5) + 0x1_0000 * At(mem, 6) + 0x100_0000 * At(mem, 7))
  {
    hide Value;
    ValueSteps(mem);
    if |mem| >= 4 {
      ValueSteps(mem[4..]);
    }
  }

  lemma ValueSteps(mem: seq<u8>)
    ensures |mem| == 1 ==> Value(mem) == At(mem, 0)
    ensures |mem| == 2 ==> Value(mem) == At(mem, 0) + 0x100 * At(mem, 1)
    ensures |mem| >= 4 ==>
      Value(mem) == At(mem, 0) + 0x100 * At(mem, 1) + 0x1_0000 * At(mem, 2) + 0x100_0000 * At(mem, 3) + 0x1_0000_0000 * Value(mem[4..])
    ensures mem == [] ==> Value(mem) == 0
  {
    hide Value;
    ValueStep(mem);
    if |mem| >= 1 {
      ValueStep(mem[1..]);
    }
    if |mem| >= 2 {
      assert mem[1..][1..] == mem[2..];
      ValueStep(mem[2..]);
    }
    if |mem| >= 4 {
      assert mem[2..][1..] == mem[3..] && mem[3..][1..] == mem[4..];
      ValueStep(mem[3..]);
      ValueStep(mem[4..]);
    }
  }

  lemma ValueStep(mem: seq<u8>)
    ensures Value(mem) == if mem == [] then 0 else mem[0] + 256 * Value(mem[1..])
  {
  }

  lemma {:induction false} AllOnes(mem: seq<u8>)
    ensures Value(mem) == Range(|mem|) - 1 <==> forall i :: 0 <= i < |mem| ==> mem[i] == 255
  {
    if mem != [] {
      AllOnes(mem[1..]);
      ValueInRange(mem[1..]);
      assert forall i :: 0 < i < |mem| ==> mem[i] == mem[1..][i - 1];
    }
  }

  lemma {:induction false} HexadecimalForm(v: nat) returns (digits: seq<nat>)
    ensures Spells(Hexadecimal(v), digits, HEX_DIGITS) && Positional(digits, 16) == v
  {
    hide HexValue, HexChar;
    HexDigitIs(v % 16);
    if v < 16 {
      digits := [v];
      PositionalDigit(v, 16);
    } else {
      var high := HexadecimalForm(v / 16);
      digits := high + [v % 16];
      assert digits[..|digits| - 1] == high;
    }
  }

  // All ones of any width count as all ones of 64 bits. Compact, numbers below ten are one digit and all
  // ones is -1; otherwise a number is hexadecimal. Other widths are printed as bytes.
  lemma IntegerPrinted(mem: seq<u8>, compact: bool) returns (digits: seq<nat>)
    requires |mem| in {1, 2, 4, 8}
    ensures var ones := forall i :: 0 <= i < |mem| ==> mem[i] == 255;
      var v, text := if ones then 0xFFFF_FFFF_FFFF_FFFF else Value(mem), RenderInteger(mem, compact);
      if compact && v < 10 then text == [DIGITS[v]]
      else if compact && ones then text == "-1"
      else text[..2] == "0x" && Spells(text[2..], digits, HEX_DIGITS) && Positional(digits, 16) == v
  {
    hide Value, Range, Spells, Positional, Hexadecimal, HexChar;
    AllOnes(mem);
    StoredWidened(mem);
    var v := Widened(mem);
    digits := HexadecimalForm(v);
    if v < 10 {
      DigitIs(v);
    }
    if !(compact && v < 10) && !(compact && v == U64_SIZE - 1) {
      assert RenderInteger(mem, compact) == "0x" + Hexadecimal(v);
    }
  }

  lemma WideInteger(mem: seq<u8>, compact: bool)
    requires |mem| !in {1, 2, 4, 8}
    ensures RenderInteger(mem, compact) == "xi " + RenderBlob(mem, compact)
  {
    hide RenderBlob;
  }

  // Digits that make up a word, in base 8, 10 or 16.
  lemma {:induction false} ReadsDigits(text: string, digits: seq<nat>, base: nat, n: nat)
    requires Spells(text, digits, HEX_DIGITS) && base <= 16 && forall i :: 0 <= i < |digits| ==> digits[i] < base
    ensures ReadDigits(text, base, n) == Appended(n, digits, base)
    decreases |digits|
  {
    hide HexValue, IsHex;
    if digits != [] {
      HexDigitIs(digits[0]);
      ReadsDigits(text[1..], digits[1..], base, n * base + digits[0]);
    }
  }

  lemma {:induction false} ValueStored(v: nat, width: nat)
    ensures Value(Stored(v, width)) == v % Range(width)
    decreases width
  {
    if width > 0 {
      ValueStored(v / 256, width - 1);
      ByteFirst(v, Range(width - 1));
    }
  }

  lemma ByteFirst(v: nat, r: nat)
    requires r > 0
    ensures v % (256 * r) == v % 256 + 256 * (v / 256 % r)
  {
    var q, m := v / 256 / r, v / 256 % r;
    DivMod(v / 256, r);
    assert v == q * (256 * r) + (v % 256 + 256 * m) by {
      assert 256 * (q * r) == q * (256 * r);
    }
    ModUnique(v, q, v % 256 + 256 * m, 256 * r);
  }

  // The number that a word spells: decimal, octal behind a zero, hexadecimal behind 0x.
  ghost predicate Denotes(word: string, digits: seq<nat>, n: nat) {
    || (Spells(word, digits, HEX_DIGITS) && digits != [] && digits[0] != 0 && (forall i :: 0 <= i < |digits| ==> digits[i] < 10)
        && n == Positional(digits, 10))
    || (Spells(word, digits, HEX_DIGITS) && digits != [] && digits[0] == 0 && (forall i :: 0 <= i < |digits| ==> digits[i] < 8)
        && n == Positional(digits, 8))
    || (|word| > 2 && word[0] == '0' && word[1] == 'x' && Spells(word[2..], digits, HEX_DIGITS) && n == Positional(digits, 16))
  }

  lemma NoPrefix(word: string, digits: seq<nat>)
    requires Spells(word, digits, HEX_DIGITS) && forall i :: 0 <= i < |digits| ==> digits[i] < 10
    ensures |word| > 1 ==> word[1] != 'x' && word[1] != 'X'
    ensures digits != [] && digits[0] != 0 ==> word[0] != '0'
    ensures digits != [] && digits[0] == 0 ==> word[0] == '0'
  {
  }

  lemma MagnitudeForm(word: string, digits: seq<nat>, n: nat)
    requires Denotes(word, digits, n)
    ensures ReadMagnitude(word) == Some(n)
  {
    hide HexValue, IsHex, IsDigit, Positional, ReadDigits;
    HexDigitIs(digits[0]);
    AppendedIs(digits, 8);
    AppendedIs(digits, 10);
    AppendedIs(digits, 16);
    if |word| > 2 && word[0] == '0' && word[1] == 'x' {
      assert word[2] == word[2..][0];
      ReadsDigits(word[2..], digits, 16, 0);
    } else {
      DigitIs(digits[0]);
      assert word[0] == HEX_DIGITS[digits[0]] == DIGITS[digits[0]];
      NoPrefix(word, digits);
      if digits[0] == 0 {
        ReadsDigits(word, digits, 8, 0);
      } else {
        ReadsDigits(word, digits, 10, 0);
      }
    }
  }

  // A word that spells a number is stored, cut to the width; one that does not fit 64 bits is an error.
  lemma IntegerLoaded(was: seq<u8>, word: string, digits: seq<nat>, n: nat, rest: string)
    requires |was| in {1, 2, 4, 8} && Denotes(word, digits, n) && EndsWord(rest)
    ensures var r := LoadInteger(was, word + rest);
      if n < 0x1_0000_0000_0000_0000 then r.Ok? && |r.mem| == |was| && Value(r.mem) == n % Range(|was|) && r.rest == rest
      else r == Error
  {
    hide Value, Range, Stored, ReadMagnitude, ReadWord, LoadBlob, Positional, HexValue, IsHex, ReadDigits;
    MagnitudeForm(word, digits, n);
    WordOfDigits(word, digits, n);
    ReadWholeWord(word, rest);
    assert (word + rest)[0] == word[0];
    ValueStored(n, |was|);
  }

  // Behind a minus sign it is the negative number, in two's complement; one below the least number of
  // 64 bits is an error.
  lemma NegativeLoaded(was: seq<u8>, word: string, digits: seq<nat>, n: nat, rest: string)
    requires |was| in {1, 2, 4, 8} && Denotes(word, digits, n) && EndsWord(rest)
    ensures var r := LoadInteger(was, "-" + word + rest);
      if n <= 0x8000_0000_0000_0000 then r.Ok? && |r.mem| == |was| && Value(r.mem) == (0 - n) % Range(|was|) && r.rest == rest
      else r == Error
  {
    hide Value, Range, Stored, ReadNegative, ReadUnsigned, ReadWord, LoadBlob, Denotes;
    WordOfDigits(word, digits, n);
    ReadWholeWord("-" + word, rest);
    assert ("-" + word + rest)[0] == ("-" + word)[0] == '-';
    ReadsNegative(word, digits, n);
    var r := Range(|was|);
    var v: nat := (0 - n) % r;
    LoadsNegative(was, "-" + word, rest);
    ValueStored(v, |was|);
    ModSmall(v, r);
  }

  lemma LoadsNegative(was: seq<u8>, word: string, rest: string)
    requires |was| in {1, 2, 4, 8} && word != "" && word[0] == '-' && ReadWord(word + rest) == (word, rest)
    ensures LoadInteger(was, word + rest) ==
      match ReadNegative(word)
      case None => Error
      case Some(n) => ScalarText.Ok(Stored(n % Range(|was|), |was|), rest)
  {
    hide Range, Stored, ReadNegative, ReadUnsigned, ReadWord, LoadBlob;
    assert (word + rest)[0] == '-';
  }

  lemma ReadsNegative(word: string, digits: seq<nat>, n: nat)
    requires Denotes(word, digits, n)
    ensures ReadNegative("-" + word) == if n <= 0x8000_0000_0000_0000 then Some(0 - n) else None
  {
    hide ReadMagnitude, Denotes;
    MagnitudeForm(word, digits, n);
    assert ("-" + word)[1..] == word;
  }

  lemma WordOfDigits(word: string, digits: seq<nat>, n: nat)
    requires Denotes(word, digits, n)
    ensures IsWord(word) && word != "xi" && word[0] != '-' && word[0] != '+' && !IsSpace(word[0])
  {
    hide HexValue, Positional;
    forall i | 0 <= i < |word|
      ensures !IsSpace(word[i]) && word[i] != '-' && word[i] != '+' && (i == 0 ==> word[i] != 'x')
    {
      if |word| > 2 && word[0] == '0' && word[1] == 'x' && Spells(word[2..], digits, HEX_DIGITS) {
        if i >= 2 {
          assert word[i] == word[2..][i - 2];
          HexDigitIs(digits[i - 2]);
        }
      } else {
        HexDigitIs(digits[i]);
      }
    }
  }

  lemma RangeIs()
    ensures Range(1) == 0x100 && Range(2) == 0x1_0000 && Range(4) == 0x1_0000_0000 && Range(8) == 0x1_0000_0000_0000_0000
  {
    Ranges();
  }

  // ----- booleans

  lemma BooleanForms(b: bool)
    ensures RenderBoolean(b, true) == (if b then "1" else "0") && RenderBoolean(b, false) == (if b then "true" else "false")
  {
  }

  // A word is read whatever its case; low is the word in small letters.
  lemma BooleanLoaded(word: string, low: string, rest: string)
    requires EndsWord(rest) && word != "" && forall i :: 0 <= i < |word| ==> !IsSpace(word[i])
    requires |low| == |word| && forall i :: 0 <= i < |word| ==>
      low[i] as int == if 65 <= word[i] as int <= 90 then word[i] as int + 32 else word[i] as int
    ensures LoadBoolean(word + rest) ==
      if low in {"yes", "true", "1"} then Some((true, rest)) else if low in {"no", "false", "0"} then Some((false, rest)) else None
  {
    hide ReadWord;
    ReadWholeWord(word, rest);
    assert (word + rest)[0] == word[0];
    assert Lower(word) == low;
  }
}
