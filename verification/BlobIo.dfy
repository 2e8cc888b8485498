// sim/serializationlanguage.cpp: the loops that print and load byte strings.
module BlobIo {
  import opened Arith
  import opened Bits
  import opened BlobText

  // ----- RenderBinaryData

  // Follows a string until a byte that cannot be quoted, or the first of three alike.
  method QuotedLength(buf: seq<u8>, s: nat) returns (n: nat)
    requires s < |buf|
    ensures n == Quotable(buf, s)
  {
    n := 0;
    while s + n < |buf| && OkForString(buf[s + n])
      invariant s + n <= |buf| && n + Quotable(buf, s + n) == Quotable(buf, s)
      decreases |buf| - n
    {
      var rep := 1;
      while rep < 4 && s + n + rep < |buf| && OkForString(buf[s + n + rep]) && buf[s + n + rep] == buf[s + n]
        invariant 1 <= rep <= 4 && s + n + rep <= |buf|
        invariant forall j :: s + n <= j < s + n + rep ==> buf[j] == buf[s + n]
        decreases 4 - rep
      {
        rep := rep + 1;
      }
      if rep >= 3 {
        assert buf[s + n + 1] == buf[s + n] && buf[s + n + 2] == buf[s + n];
        return;
      }
      n := n + 1;
    }
  }

  // Follows a run of bytes equal to b, of which the first n are known.
  method RunLength<T(==)>(buf: seq<T>, s: nat, b: T, known: nat) returns (n: nat)
    requires s + known <= |buf| && known >= 1 && forall i :: s <= i < s + known ==> buf[i] == b
    ensures n == Same(buf, s)
  {
    n := known;
    SameFrom(buf, s, n);
    while s + n < |buf| && buf[s + n] == b
      invariant known <= n <= |buf| - s && forall i :: s <= i < s + n ==> buf[i] == b
    {
      n := n + 1;
    }
    SameFrom(buf, s, n);
  }

  lemma {:induction false} SameFrom<T>(buf: seq<T>, s: nat, n: nat)
    requires s + n <= |buf| && n >= 1 && forall i :: s <= i < s + n ==> buf[i] == buf[s]
    ensures Same(buf, s) >= n && (s + n == |buf| || buf[s + n] != buf[s] ==> Same(buf, s) == n)
    decreases n
  {
    if n > 1 {
      assert buf[s + 1] == buf[s];
      SameFrom(buf, s + 1, n - 1);
    }
  }

  method RenderCompactItem(buf: seq<u8>, s: nat) returns (item: string, n: nat)
    requires s < |buf|
    ensures (item, n) == CompactItem(buf, s)
  {
    if s + 2 < |buf| && OkForString(buf[s]) && OkForString(buf[s + 1]) && OkForString(buf[s + 2]) {
      n := QuotedLength(buf, s);
      if n > 0 {
        item := "\"" + Chars(buf[s..s + n]) + "\"";
        return;
      }
    }
    if buf[s] == 0 && s + 1 < |buf| && buf[s + 1] == 0 {
      n := RunLength(buf, s, 0, 1);
      SameFrom(buf, s, 2);
      item := "+" + Decimal(n) + "z";
      return;
    }
    item := HexPair(buf[s]);
    n := RunLength(buf, s, buf[s], 1);
    if n >= 2 {
      assert buf[s + 1] == buf[s];
      item := item + "+" + Decimal(n - 1) + "r";
    }
  }

  method RenderBinaryData(buf: seq<u8>, compact: bool) returns (os: string)
    ensures os == RenderBlob(buf, compact)
  {
    os := Decimal(|buf|) + " ";
    var s := 0;
    assert os + RenderItems(buf, 0, compact) == RenderBlob(buf, compact);
    while s < |buf|
      invariant s <= |buf| && os + RenderItems(buf, s, compact) == RenderBlob(buf, compact)
    {
      var item, n := RenderItem(buf, s, compact);
      assert os + (item + RenderItems(buf, s + n, compact)) == (os + item) + RenderItems(buf, s + n, compact);
      os := os + item;
      s := s + n;
    }
  }

  // One round: in compact form the longest item that fits, otherwise a byte, with an underscore in
  // front of every eighth.
  method RenderItem(buf: seq<u8>, s: nat, compact: bool) returns (item: string, n: nat)
    requires s < |buf|
    ensures 0 < n <= |buf| - s && RenderItems(buf, s, compact) == item + RenderItems(buf, s + n, compact)
  {
    hide CompactItem, HexPair, RenderItems;
    RenderStep(buf, s, compact);
    item := "";
    if !compact && s > 0 && s % 8 == 0 {
      item := "_";
    }
    if compact {
      item, n := RenderCompactItem(buf, s);
    } else {
      item := item + HexPair(buf[s]);
      n := 1;
    }
  }

  // ----- LoadBinaryData

  // The next character of the input, or -1 at its end.
  method Get(text: string, pos: nat) returns (c: int, pos': nat)
    requires pos <= |text|
    ensures if pos < |text| then c == text[pos] as int && pos' == pos + 1 && text[pos..] == [text[pos]] + text[pos'..]
      else c == -1 && pos' == pos
  {
    if pos < |text| {
      c, pos' := text[pos] as int, pos + 1;
    } else {
      c, pos' := -1, pos;
    }
  }

  // A number, wrapped to the width of size_t, and the character behind it.
  method GetNumber(text: string, pos: nat) returns (n: nat, c: int, pos': nat)
    requires pos <= |text|
    ensures var r := ReadNumber(text[pos..], 0);
      && n == r.0 % U64_SIZE && pos' <= |text|
      && (if r.1 == [] then c == -1 else c == r.1[0] as int && text[pos'..] == r.1[1..])
  {
    n := 0;
    ghost var value: nat := 0;
    c, pos' := Get(text, pos);
    ghost var front := text[pos..];
    while '0' as int <= c <= '9' as int
      invariant pos' <= |text| && n == value % U64_SIZE
      invariant ReadNumber(front, value) == ReadNumber(text[pos..], 0)
      invariant if front == [] then c == -1 && pos' == |text| else c == front[0] as int && text[pos'..] == front[1..]
      decreases |front|
    {
      WrapDigit(value, n, c - '0' as int);
      value := value * 10 + HexValue(front[0]);
      n := (n * 10 + (c - '0' as int)) % U64_SIZE;
      front := front[1..];
      c, pos' := Get(text, pos');
    }
  }

  lemma WrapDigit(value: nat, n: nat, d: nat)
    requires n == value % U64_SIZE
    ensures (n * 10 + d) % U64_SIZE == (value * 10 + d) % U64_SIZE
  {
    var q := value / U64_SIZE;
    assert value == q * U64_SIZE + n;
    var x := n * 10 + d;
    assert x == x / U64_SIZE * U64_SIZE + x % U64_SIZE;
    assert value * 10 + d == (q * 10 + x / U64_SIZE) * U64_SIZE + x % U64_SIZE;
    ModUnique(value * 10 + d, q * 10 + x / U64_SIZE, x % U64_SIZE, U64_SIZE);
  }

  // The state of the loader, as a value.
  ghost function State(buf: array<u8>, dst: nat, last: u8, text: string, pos: nat): Blob
    requires pos <= |text|
    reads buf
  {
    Blob(buf[..], dst, last, text[pos..])
  }

  // Writes b up to n times from start on.
  method WriteRun(buf: array<u8>, start: nat, last: u8, b: u8, n: nat, ghost text: string) returns (dst: nat, last': u8)
    modifies buf
    ensures Blob(buf[..], dst, last', text) == Fill(Blob(old(buf[..]), start, last, text), b, n)
  {
    dst, last' := start, last;
    var i := 0;
    while i < n && dst < buf.Length
      invariant i <= n
      invariant Fill(Blob(buf[..], dst, last', text), b, n - i) == Fill(Blob(old(buf[..]), start, last, text), b, n)
    {
      WriteByte(buf, dst, b);
      dst, last' := dst + 1, b;
      i := i + 1;
    }
  }

  method WriteByte(buf: array<u8>, dst: nat, b: u8)
    requires dst < buf.Length
    modifies buf
    ensures buf[..] == old(buf[..])[dst := b]
  {
    buf[dst] := b;
  }

  // The inside of a quoted string.
  method LoadString(text: string, pos: nat, buf: array<u8>, dst: nat, last: u8) returns (ok: bool, pos': nat, dst': nat, last': u8)
    requires pos <= |text|
    modifies buf
    ensures pos' <= |text|
    ensures ReadString(old(State(buf, dst, last, text, pos))) == if ok then Going(State(buf, dst', last', text, pos')) else Failed
  {
    pos', dst', last' := pos, dst, last;
    ghost var at: nat := pos;
    var c;
    c, pos' := Get(text, pos');
    while c != '"' as int && dst' < buf.Length
      invariant at <= pos' <= |text| && (if at < |text| then c == text[at] as int && pos' == at + 1 else c == -1 && pos' == at)
      invariant at < |text| ==> text[at..][0] == text[at] && text[at..][1..] == text[pos'..]
      invariant ReadString(State(buf, dst', last', text, at)) == ReadString(old(State(buf, dst, last, text, pos)))
      decreases buf.Length - dst'
    {
      WriteByte(buf, dst', c % 256);
      dst', last' := dst' + 1, c % 256;
      at := pos';
      c, pos' := Get(text, pos');
    }
    ok := c == '"' as int;
  }

  // What follows a plus sign.
  method LoadRepeat(text: string, pos: nat, buf: array<u8>, dst: nat, last: u8) returns (ok: bool, pos': nat, dst': nat, last': u8)
    requires pos <= |text|
    modifies buf
    ensures pos' <= |text|
    ensures ReadRepeat(old(State(buf, dst, last, text, pos))) == if ok then Going(State(buf, dst', last', text, pos')) else Failed
  {
    hide ReadNumber, Fill;
    var n, c;
    n, c, pos' := GetNumber(text, pos);
    ok, dst', last' := true, dst, last;
    if c == '.' as int {
      dst' := dst + n;
    } else if c == '@' as int {
      if n > buf.Length {
        ok := false;
      } else {
        dst' := n;
      }
    } else if c == 'z' as int || c == 'Z' as int {
      dst', last' := WriteRun(buf, dst, last, 0, n, text[pos'..]);
    } else if c == 'r' as int || c == 'R' as int {
      dst', last' := WriteRun(buf, dst, last, last, n, text[pos'..]);
    } else {
      ok := false;
    }
  }

  // Binary digits, of which the last eight count, and the character behind them.
  method GetBits(text: string, pos: nat) returns (b: u8, c: int, pos': nat)
    requires pos <= |text|
    ensures var r := ReadBits(text[pos..], 0);
      && b == r.0 && pos' <= |text|
      && (if r.1 == [] then c == -1 else c == r.1[0] as int && text[pos'..] == r.1[1..])
  {
    b := 0;
    c, pos' := Get(text, pos);
    ghost var front := text[pos..];
    while c == '0' as int || c == '1' as int
      invariant pos' <= |text| && ReadBits(front, b) == ReadBits(text[pos..], 0)
      invariant if front == [] then c == -1 && pos' == |text| else c == front[0] as int && text[pos'..] == front[1..]
      decreases |front|
    {
      b := (b * 2 + (c - '0' as int)) % 256;
      front := front[1..];
      c, pos' := Get(text, pos');
    }
  }

  // One item of the language.
  method LoadItem(text: string, pos: nat, buf: array<u8>, dst: nat, last: u8) returns (ok: bool, pos': nat, dst': nat, last': u8)
    requires pos < |text| && dst < buf.Length
    modifies buf
    ensures pos' <= |text|
    ensures ReadItem(old(State(buf, dst, last, text, pos))) == if ok then Going(State(buf, dst', last', text, pos')) else Failed
  {
    hide ReadBits, ReadString, ReadRepeat;
    var c, d, b, next;
    c, next := Get(text, pos);
    assert text[pos..][1..] == text[next..];
    ok, pos', dst', last' := true, next, dst, last;
    if c == '_' as int || IsSpace(c as char) {
    } else if c == '*' as int {
      b, d, pos' := GetBits(text, next);
      if d == '.' as int {
        WriteByte(buf, dst, b);
        dst', last' := dst + 1, b;
      } else {
        ok := false;
      }
    } else if c == '"' as int {
      ok, pos', dst', last' := LoadString(text, next, buf, dst, last);
    } else if c == '+' as int {
      ok, pos', dst', last' := LoadRepeat(text, next, buf, dst, last);
    } else if IsHex(c as char) {
      b := HexValue(c as char);
      d, pos' := Get(text, next);
      if d != -1 && IsHex(d as char) {
        b := b * 16 + HexValue(d as char);
        WriteByte(buf, dst, b);
        dst', last' := dst + 1, b;
      } else {
        ok := false;
      }
    } else {
      ok := false;
    }
  }

  method GetSize(text: string) returns (size: nat, pos: nat)
    ensures pos <= |text| && ReadNumber(SkipSpace(text), 0) == (size, text[pos..])
  {
    pos := 0;
    while pos < |text| && IsSpace(text[pos])
      invariant pos <= |text| && SkipSpace(text[pos..]) == SkipSpace(text)
    {
      assert text[pos..][1..] == text[pos + 1..];
      pos := pos + 1;
    }
    size := 0;
    while pos < |text| && IsDigit(text[pos])
      invariant pos <= |text| && ReadNumber(text[pos..], size) == ReadNumber(SkipSpace(text), 0)
    {
      assert text[pos..][1..] == text[pos + 1..];
      size := size * 10 + HexValue(text[pos]);
      pos := pos + 1;
    }
  }

  // Loads a buffer from the front of a text, whatever the text is.
  method LoadBinaryData(buf: array<u8>, text: string) returns (ok: bool, pos: nat)
    modifies buf
    ensures pos <= |text|
    ensures var r := LoadBlob(old(buf[..]), text);
      if ok then r.Going? && r.state.buf == buf[..] && r.state.text == text[pos..] else r.Failed?
  {
    hide ReadItem, ReadNumber;
    var size;
    size, pos := GetSize(text);
    ok := size == buf.Length;
    var dst: nat, last: u8 := 0, 0;
    while ok && dst < buf.Length && pos < |text|
      invariant pos <= |text|
      invariant LoadBlob(old(buf[..]), text) == if ok then ReadItems(State(buf, dst, last, text, pos)) else Failed
      decreases ok, |text| - pos
    {
      ok, pos, dst, last := LoadItem(text, pos, buf, dst, last);
    }
  }

  // What is printed loads again, from a buffer of any contents, and leaves what followed it.
  method Reload(bytes: seq<u8>, compact: bool, buf: array<u8>, rest: string) returns (text: string, pos: nat)
    requires buf.Length == |bytes| < U64_SIZE
    modifies buf
    ensures text == RenderBlob(bytes, compact) + rest && pos <= |text|
    ensures buf[..] == bytes && text[pos..] == (if bytes == [] then " " else "") + rest
  {
    text := RenderBinaryData(bytes, compact);
    text := text + rest;
    RoundTrip(bytes, compact, buf[..], rest);
    var ok;
    ok, pos := LoadBinaryData(buf, text);
  }
}
