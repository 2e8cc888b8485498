// sim/serializationlanguage.cpp: the text of byte strings. What the printer writes, and what the
// loader makes of any text at all.
module BlobText {
  import opened Bits

  // ----- characters, in the C locale

  predicate IsSpace(c: char) {
    c == ' ' || 9 as char <= c <= 13 as char
  }

  predicate IsDigit(c: char) {
    '0' <= c <= '9'
  }

  predicate IsHex(c: char) {
    IsDigit(c) || 'a' <= c <= 'f' || 'A' <= c <= 'F'
  }

  function HexValue(c: char): (d: nat)
    requires IsHex(c)
    ensures d < 16
  {
    if 'A' <= c <= 'F' then c as int - 'A' as int + 10
    else if 'a' <= c <= 'f' then c as int - 'a' as int + 10
    else c as int - '0' as int
  }

  function HexChar(d: nat): (c: char)
    requires d < 16
    ensures IsHex(c) && HexValue(c) == d
  {
    if d < 10 then ('0' as int + d) as char else ('a' as int - 10 + d) as char
  }

  // Printable, not a blank and not a double quote.
  predicate OkForString(b: u8) {
    33 <= b <= 126 && b != 34
  }

  function Byte(c: char): u8 {
    c as int % 256
  }

  // ----- numbers

  function Decimal(n: nat): string {
    if n < 10 then [HexChar(n)] else Decimal(n / 10) + [HexChar(n % 10)]
  }

  // The digits in front of a text, on top of the value n of those before them, and what follows.
  function ReadNumber(text: string, n: nat): (r: (nat, string))
    ensures |r.1| <= |text| && (r.1 != [] ==> !IsDigit(r.1[0]))
  {
    if text != [] && IsDigit(text[0]) then ReadNumber(text[1..], n * 10 + HexValue(text[0])) else (n, text)
  }

  lemma {:induction false} ReadDecimal(n: nat, more: string)
    ensures ReadNumber(Decimal(n) + more, 0) == ReadNumber(more, n)
  {
    if n >= 10 {
      var last := [HexChar(n % 10)];
      ReadDecimal(n / 10, last + more);
      assert Decimal(n) + more == Decimal(n / 10) + (last + more);
      assert (last + more)[1..] == more;
    } else {
      assert (Decimal(n) + more)[1..] == more;
    }
  }

  lemma {:induction false} DecimalStart(n: nat)
    ensures Decimal(n) != [] && IsDigit(Decimal(n)[0])
  {
    if n >= 10 {
      DecimalStart(n / 10);
    }
  }

  // ----- loading

  // The buffer being filled, the place to write next, the last byte written, the text to come.
  datatype Blob = Blob(buf: seq<u8>, dst: nat, last: u8, text: string)

  datatype Outcome<S> = Going(state: S) | Failed

  function Put(s: Blob, b: u8): Blob
    requires s.dst < |s.buf|
  {
    s.(buf := s.buf[s.dst := b], dst := s.dst + 1, last := b)
  }

  // Writes b up to n times, as far as the buffer goes.
  function Fill(s: Blob, b: u8, n: nat): (r: Blob)
    ensures r.text == s.text && |r.buf| == |s.buf|
    decreases n
  {
    if n == 0 || s.dst >= |s.buf| then s else Fill(Put(s, b), b, n - 1)
  }

  // Binary digits in front of a text; only the low eight bits count.
  function ReadBits(text: string, b: u8): (r: (u8, string))
    ensures |r.1| <= |text|
  {
    if text != [] && (text[0] == '0' || text[0] == '1') then ReadBits(text[1..], (b * 2 + HexValue(text[0])) % 256) else (b, text)
  }

  // The inside of a quoted string. A text that ends early writes on until the buffer is full, and
  // fails like one that is too long.
  function ReadString(s: Blob): (r: Outcome<Blob>)
    ensures r.Going? ==> |r.state.text| < |s.text| && |r.state.buf| == |s.buf|
    decreases |s.text|
  {
    if s.text == [] then Failed
    else if s.text[0] == '"' then Going(s.(text := s.text[1..]))
    else if s.dst >= |s.buf| then Failed
    else ReadString(Put(s, Byte(s.text[0])).(text := s.text[1..]))
  }

  // What follows a plus sign: a number and what to do with it.
  function ReadRepeat(s: Blob): (r: Outcome<Blob>)
    ensures r.Going? ==> |r.state.text| < |s.text| && |r.state.buf| == |s.buf|
  {
    var (number, text) := ReadNumber(s.text, 0);
    var n := number % U64_SIZE;
    if text == [] then Failed
    else
      var t := s.(text := text[1..]);
      if text[0] == '.' then Going(t.(dst := t.dst + n))
      else if text[0] == '@' then if n > |s.buf| then Failed else Going(t.(dst := n))
      else if text[0] == 'z' || text[0] == 'Z' then Going(Fill(t, 0, n))
      else if text[0] == 'r' || text[0] == 'R' then Going(Fill(t, t.last, n))
      else Failed
  }

  function ReadItem(s: Blob): (r: Outcome<Blob>)
    requires s.dst < |s.buf| && s.text != []
    ensures r.Going? ==> |r.state.text| < |s.text| && |r.state.buf| == |s.buf|
  {
    var c, more := s.text[0], s.(text := s.text[1..]);
    if c == '_' || IsSpace(c) then Going(more)
    else if c == '*' then
      var (b, text) := ReadBits(more.text, 0);
      if text != [] && text[0] == '.' then Going(Put(s, b).(text := text[1..])) else Failed
    else if c == '"' then ReadString(more)
    else if c == '+' then ReadRepeat(more)
    else if IsHex(c) && more.text != [] && IsHex(more.text[0]) then
      Going(Put(s, HexValue(c) * 16 + HexValue(more.text[0])).(text := more.text[1..]))
    else Failed
  }

  // Items until the buffer is full or the text ends.
  function ReadItems(s: Blob): (r: Outcome<Blob>)
    ensures r.Going? ==> |r.state.buf| == |s.buf|
    decreases |s.text|
  {
    if s.dst >= |s.buf| || s.text == [] then Going(s)
    else
      var next := ReadItem(s);
      if next.Failed? then Failed else ReadItems(next.state)
  }

  function SkipSpace(text: string): string {
    if text != [] && IsSpace(text[0]) then SkipSpace(text[1..]) else text
  }

  // A text starts with the size, which must be that of the buffer.
  function LoadBlob(buf: seq<u8>, text: string): (r: Outcome<Blob>)
    ensures r.Going? ==> |r.state.buf| == |buf|
  {
    var (size, more) := ReadNumber(SkipSpace(text), 0);
    if size != |buf| then Failed else ReadItems(Blob(buf, 0, 0, more))
  }

  // ----- printing

  // How many bytes from s on are the same.
  function Same<T(==)>(bytes: seq<T>, s: nat): (n: nat)
    requires s < |bytes|
    ensures 1 <= n <= |bytes| - s && forall i :: s <= i < s + n ==> bytes[i] == bytes[s]
    decreases |bytes| - s
  {
    if s + 1 < |bytes| && bytes[s + 1] == bytes[s] then 1 + Same(bytes, s + 1) else 1
  }

  predicate Triple(bytes: seq<u8>, s: nat) {
    s + 2 < |bytes| && bytes[s + 1] == bytes[s] && bytes[s + 2] == bytes[s]
  }

  // How long a quoted string may get: it stops at a byte that cannot be quoted or comes three times.
  function Quotable(bytes: seq<u8>, s: nat): (n: nat)
    requires s <= |bytes|
    ensures n <= |bytes| - s && forall i :: s <= i < s + n ==> OkForString(bytes[i])
    decreases |bytes| - s
  {
    if s < |bytes| && OkForString(bytes[s]) && !Triple(bytes, s) then 1 + Quotable(bytes, s + 1) else 0
  }

  function Chars(bytes: seq<u8>): (r: string)
    ensures |r| == |bytes|
  {
    seq(|bytes|, i requires 0 <= i < |bytes| => bytes[i] as char)
  }

  function HexPair(b: u8): string {
    [HexChar(b / 16), HexChar(b % 16)]
  }

  predicate StartsQuoted(bytes: seq<u8>, s: nat) {
    s + 2 < |bytes| && OkForString(bytes[s]) && OkForString(bytes[s + 1]) && OkForString(bytes[s + 2]) && Quotable(bytes, s) > 0
  }

  // The next item of a compact text and how many bytes it stands for.
  function CompactItem(bytes: seq<u8>, s: nat): (r: (string, nat))
    requires s < |bytes|
    ensures 1 <= r.1 <= |bytes| - s
  {
    var n := Same(bytes, s);
    if StartsQuoted(bytes, s) then ("\"" + Chars(bytes[s..s + Quotable(bytes, s)]) + "\"", Quotable(bytes, s))
    else if bytes[s] == 0 && n >= 2 then ("+" + Decimal(n) + "z", n)
    else if n >= 2 then (HexPair(bytes[s]) + "+" + Decimal(n - 1) + "r", n)
    else (HexPair(bytes[s]), 1)
  }

  function RenderItems(bytes: seq<u8>, s: nat, compact: bool): string
    requires s <= |bytes|
    decreases |bytes| - s
  {
    if s == |bytes| then ""
    else if compact then
      var (item, n) := CompactItem(bytes, s);
      item + RenderItems(bytes, s + n, compact)
    else (if s > 0 && s % 8 == 0 then "_" else "") + HexPair(bytes[s]) + RenderItems(bytes, s + 1, compact)
  }

  function RenderBlob(bytes: seq<u8>, compact: bool): string {
    Decimal(|bytes|) + " " + RenderItems(bytes, 0, compact)
  }

  // ----- loading what was printed

  // The buffer holds the first s bytes, and the next byte goes behind them.
  ghost predicate Loaded(st: Blob, bytes: seq<u8>, s: nat) {
    s <= |bytes| == |st.buf| && st.dst == s && st.buf[..s] == bytes[..s]
  }

  lemma LoadOne(st: Blob, bytes: seq<u8>, s: nat)
    requires Loaded(st, bytes, s) && s < |bytes|
    ensures Loaded(Put(st, bytes[s]), bytes, s + 1)
  {
  }

  lemma {:induction false} LoadFill(st: Blob, bytes: seq<u8>, s: nat, b: u8, n: nat)
    requires Loaded(st, bytes, s) && s + n <= |bytes| && forall i :: s <= i < s + n ==> bytes[i] == b
    ensures Loaded(Fill(st, b, n), bytes, s + n)
    decreases n
  {
    if n > 0 {
      LoadOne(st, bytes, s);
      LoadFill(Put(st, b), bytes, s + 1, b, n - 1);
    }
  }

  lemma {:induction false} LoadString(st: Blob, bytes: seq<u8>, s: nat, n: nat, more: string)
    requires Loaded(st, bytes, s) && s + n <= |bytes| && forall i :: s <= i < s + n ==> OkForString(bytes[i])
    requires st.text == Chars(bytes[s..s + n]) + "\"" + more
    ensures var r := ReadString(st); r.Going? && Loaded(r.state, bytes, s + n) && r.state.text == more
    decreases n
  {
    if n == 0 {
      assert st.text[1..] == more;
    } else {
      var chars := Chars(bytes[s..s + n]);
      assert st.text[0] == bytes[s] as char;
      assert chars[1..] == Chars(bytes[s + 1..s + n]);
      assert st.text[1..] == chars[1..] + "\"" + more;
      LoadOne(st, bytes, s);
      LoadString(Put(st, bytes[s]).(text := st.text[1..]), bytes, s + 1, n - 1, more);
    }
  }

  lemma LoadRepeat(st: Blob, n: nat, c: char, more: string)
    requires st.text == Decimal(n) + [c] + more && !IsDigit(c) && n < U64_SIZE
    ensures c == 'z' ==> ReadRepeat(st) == Going(Fill(st.(text := more), 0, n))
    ensures c == 'r' ==> ReadRepeat(st) == Going(Fill(st.(text := more), st.last, n))
  {
    ReadDecimal(n, [c] + more);
    assert st.text == Decimal(n) + ([c] + more);
    assert ([c] + more)[1..] == more;
    assert n % U64_SIZE == n;
  }

  lemma LoadHexPair(st: Blob, bytes: seq<u8>, s: nat, more: string)
    requires Loaded(st, bytes, s) && s < |bytes| && st.text == HexPair(bytes[s]) + more
    ensures ReadItem(st) == Going(Put(st, bytes[s]).(text := more)) && Loaded(ReadItem(st).state, bytes, s + 1)
  {
    assert st.text[1..][1..] == more;
    LoadOne(st, bytes, s);
  }

  // The text to come has no part in it.
  lemma LoadedText(st: Blob, bytes: seq<u8>, s: nat, text: string)
    requires Loaded(st, bytes, s)
    ensures Loaded(st.(text := text), bytes, s) && st.dst == s && |st.buf| == |bytes|
  {
  }

  // One step of the printer.
  lemma RenderStep(bytes: seq<u8>, s: nat, compact: bool)
    requires s < |bytes|
    ensures compact ==> RenderItems(bytes, s, true) == CompactItem(bytes, s).0 + RenderItems(bytes, s + CompactItem(bytes, s).1, true)
    ensures !compact ==>
      RenderItems(bytes, s, false) == (if s > 0 && s % 8 == 0 then "_" else "") + HexPair(bytes[s]) + RenderItems(bytes, s + 1, false)
  {
    hide CompactItem, HexPair;
  }

  // Blanks and underscores are skipped.
  lemma ReadBlank(st: Blob, c: char, more: string)
    requires st.dst < |st.buf| && st.text == [c] + more && (c == '_' || c == ' ')
    ensures ReadItem(st) == Going(st.(text := more))
  {
    assert st.text[1..] == more;
  }

  lemma LoadQuotedItem(st: Blob, bytes: seq<u8>, s: nat, more: string) returns (st': Blob)
    requires Loaded(st, bytes, s) && s < |bytes| < U64_SIZE && st.text == CompactItem(bytes, s).0 + more
    requires StartsQuoted(bytes, s)
    ensures Loaded(st', bytes, s + CompactItem(bytes, s).1) && st'.text == more
    ensures ReadItems(st) == ReadItems(st')
  {
    hide Loaded, Chars, ReadString, ReadNumber, ReadRepeat;
    LoadedText(st, bytes, s, st.text);
    var q := Quotable(bytes, s);
    assert st.text[1..] == Chars(bytes[s..s + q]) + "\"" + more;
    LoadedText(st, bytes, s, st.text[1..]);
    LoadString(st.(text := st.text[1..]), bytes, s, q, more);
    st' := ReadItem(st).state;
  }

  lemma LoadZerosItem(st: Blob, bytes: seq<u8>, s: nat, more: string) returns (st': Blob)
    requires Loaded(st, bytes, s) && s < |bytes| < U64_SIZE && st.text == CompactItem(bytes, s).0 + more
    requires !StartsQuoted(bytes, s) && bytes[s] == 0 && Same(bytes, s) >= 2
    ensures Loaded(st', bytes, s + CompactItem(bytes, s).1) && st'.text == more
    ensures ReadItems(st) == ReadItems(st')
  {
    hide Loaded, Decimal, Fill, ReadNumber, ReadString, ReadRepeat;
    var n := Same(bytes, s);
    LoadedText(st, bytes, s, st.text);
    var st1 := st.(text := st.text[1..]);
    assert st1.text == Decimal(n) + ['z'] + more;
    LoadRepeat(st1, n, 'z', more);
    LoadedText(st, bytes, s, more);
    LoadFill(st1.(text := more), bytes, s, 0, n);
    st' := ReadItem(st).state;
  }

  lemma LoadRunItem(st: Blob, bytes: seq<u8>, s: nat, more: string) returns (st': Blob)
    requires Loaded(st, bytes, s) && s < |bytes| < U64_SIZE && st.text == CompactItem(bytes, s).0 + more
    requires !StartsQuoted(bytes, s) && bytes[s] != 0 && Same(bytes, s) >= 2
    ensures Loaded(st', bytes, s + CompactItem(bytes, s).1) && st'.text == more
    ensures ReadItems(st) == ReadItems(st')
  {
    hide Loaded, Decimal, HexPair, Fill, ReadNumber, ReadString, ReadRepeat;
    var n := Same(bytes, s);
    var tail := "+" + Decimal(n - 1) + "r" + more;
    assert st.text == HexPair(bytes[s]) + tail;
    LoadHexPair(st, bytes, s, tail);
    LoadedText(st, bytes, s, st.text);
    var st1 := ReadItem(st).state;
    var st2 := st1.(text := tail[1..]);
    assert st2.text == Decimal(n - 1) + ['r'] + more;
    LoadRepeat(st2, n - 1, 'r', more);
    LoadedText(st1, bytes, s + 1, more);
    LoadedText(st1, bytes, s + 1, st1.text);
    LoadFill(st2.(text := more), bytes, s + 1, bytes[s], n - 1);
    st' := ReadItem(st1).state;
  }

  // The text of one compact item takes the loader as many bytes further.
  lemma LoadCompactItem(st: Blob, bytes: seq<u8>, s: nat, more: string) returns (st': Blob)
    requires Loaded(st, bytes, s) && s < |bytes| < U64_SIZE && st.text == CompactItem(bytes, s).0 + more
    ensures Loaded(st', bytes, s + CompactItem(bytes, s).1) && st'.text == more
    ensures ReadItems(st) == ReadItems(st')
  {
    hide Loaded, Decimal, Chars, HexPair, Fill, ReadNumber, ReadString, ReadRepeat;
    if StartsQuoted(bytes, s) {
      st' := LoadQuotedItem(st, bytes, s, more);
    } else if Same(bytes, s) >= 2 {
      if bytes[s] == 0 {
        st' := LoadZerosItem(st, bytes, s, more);
      } else {
        st' := LoadRunItem(st, bytes, s, more);
      }
    } else {
      LoadedText(st, bytes, s, st.text);
      LoadHexPair(st, bytes, s, more);
      st' := ReadItem(st).state;
    }
  }

  lemma {:induction false} LoadItems(st: Blob, bytes: seq<u8>, s: nat, compact: bool, rest: string)
    requires Loaded(st, bytes, s) && |bytes| < U64_SIZE && st.text == RenderItems(bytes, s, compact) + rest
    ensures var r := ReadItems(st); r.Going? && r.state.buf == bytes && r.state.dst == |bytes| && r.state.text == rest
    decreases |bytes| - s
  {
    hide ReadItem, HexChar, CompactItem;
    if s == |bytes| {
      assert st.buf == bytes && st.text == rest;
    } else if compact {
      var (item, n) := CompactItem(bytes, s);
      var more := RenderItems(bytes, s + n, compact) + rest;
      assert st.text == item + more;
      var st' := LoadCompactItem(st, bytes, s, more);
      LoadItems(st', bytes, s + n, compact, rest);
    } else {
      var more := RenderItems(bytes, s + 1, compact) + rest;
      var st1 := st;
      if s > 0 && s % 8 == 0 {
        assert st.text == "_" + (HexPair(bytes[s]) + more);
        st1 := st.(text := HexPair(bytes[s]) + more);
        ReadBlank(st, '_', st1.text);
      }
      assert st1.text == HexPair(bytes[s]) + more;
      LoadHexPair(st1, bytes, s, more);
      assert |HexPair(bytes[s])| == 2;
      LoadItems(ReadItem(st1).state, bytes, s + 1, compact, rest);
    }
  }

  lemma RenderNothing(bytes: seq<u8>, compact: bool)
    requires bytes == []
    ensures RenderItems(bytes, 0, compact) == ""
  {
  }

  // Loading what was printed gives the bytes back and leaves what followed; behind an empty string
  // the blank that ends its size is left as well.
  lemma RoundTrip(bytes: seq<u8>, compact: bool, buf: seq<u8>, rest: string)
    requires |buf| == |bytes| < U64_SIZE
    ensures var r := LoadBlob(buf, RenderBlob(bytes, compact) + rest);
      r.Going? && r.state.buf == bytes && r.state.text == (if bytes == [] then " " else "") + rest
  {
    hide Decimal, ReadItem, RenderItems;
    var text, items := RenderBlob(bytes, compact) + rest, RenderItems(bytes, 0, compact) + rest;
    DecimalStart(|bytes|);
    assert text == Decimal(|bytes|) + (" " + items);
    ReadDecimal(|bytes|, " " + items);
    assert (" " + items)[1..] == items;
    var st := Blob(buf, 0, 0, " " + items);
    if bytes == [] {
      RenderNothing(bytes, compact);
      assert buf == bytes;
    } else {
      ReadBlank(st, ' ', items);
      LoadItems(st.(text := items), bytes, 0, compact, rest);
    }
  }
}
