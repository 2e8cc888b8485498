// sim/serializationlanguage.cpp: the text of bit vectors.
module BitVectorText {
  import opened Bits
  import opened BlobText
  import opened BlobIo

  // The vector being filled, the place of the next bit, the text to come.
  datatype Vector = Vector(buf: seq<bool>, dst: nat, text: string)

  function PutBit(s: Vector, bit: bool): Vector
    requires s.dst < |s.buf|
  {
    s.(buf := s.buf[s.dst := bit], dst := s.dst + 1)
  }

  function FillBits(s: Vector, bit: bool, n: nat): (r: Vector)
    ensures r.text == s.text && |r.buf| == |s.buf|
    decreases n
  {
    if n == 0 || s.dst >= |s.buf| then s else FillBits(PutBit(s, bit), bit, n - 1)
  }

  function ReadBit(s: Vector): (r: Outcome<Vector>)
    requires s.dst < |s.buf| && s.text != []
    ensures r.Going? ==> |r.state.text| < |s.text| && |r.state.buf| == |s.buf|
  {
    var c, more := s.text[0], s.(text := s.text[1..]);
    if c == '_' || IsSpace(c) then Going(more)
    else if c == '+' || c == '-' then
      var (number, text) := ReadNumber(more.text, 0);
      if text != [] && text[0] == '.' then Going(FillBits(s.(text := text[1..]), c == '+', number % U64_SIZE)) else Failed
    else if c == '1' || c == '0' then Going(PutBit(more, c == '1'))
    else Failed
  }

  function ReadVector(s: Vector): (r: Outcome<Vector>)
    ensures r.Going? ==> |r.state.buf| == |s.buf|
    decreases |s.text|
  {
    if s.dst >= |s.buf| || s.text == [] then Going(s)
    else
      var next := ReadBit(s);
      if next.Failed? then Failed else ReadVector(next.state)
  }

  function LoadBits(buf: seq<bool>, text: string): (r: Outcome<Vector>)
    ensures r.Going? ==> |r.state.buf| == |buf|
  {
    var (size, more) := ReadNumber(SkipSpace(text), 0);
    if size != |buf| then Failed else ReadVector(Vector(buf, 0, more))
  }

  // ----- printing

  function BitChar(bit: bool): char {
    if bit then '1' else '0'
  }

  // The next piece of text and how many bits it stands for.
  function BitItem(bits: seq<bool>, s: nat, compact: bool): (r: (string, nat))
    requires s < |bits|
    ensures 1 <= r.1 <= |bits| - s
  {
    var n := Same(bits, s);
    if compact && n >= 3 then ((if bits[s] then "+" else "-") + Decimal(n) + ".", n)
    else ((if !compact && s > 0 && s % 8 == 0 then "_" else "") + [BitChar(bits[s])], 1)
  }

  function RenderBitItems(bits: seq<bool>, s: nat, compact: bool): string
    requires s <= |bits|
    decreases |bits| - s
  {
    if s == |bits| then ""
    else
      var (item, n) := BitItem(bits, s, compact);
      item + RenderBitItems(bits, s + n, compact)
  }

  function RenderBits(bits: seq<bool>, compact: bool): string {
    Decimal(|bits|) + " " + RenderBitItems(bits, 0, compact)
  }

  // ----- loading what was printed

  ghost predicate LoadedBits(st: Vector, bits: seq<bool>, s: nat) {
    s <= |bits| == |st.buf| && st.dst == s && st.buf[..s] == bits[..s]
  }

  lemma {:induction false} LoadFillBits(st: Vector, bits: seq<bool>, s: nat, bit: bool, n: nat)
    requires LoadedBits(st, bits, s) && s + n <= |bits| && forall i :: s <= i < s + n ==> bits[i] == bit
    ensures LoadedBits(FillBits(st, bit, n), bits, s + n)
    decreases n
  {
    if n > 0 {
      LoadFillBits(PutBit(st, bit), bits, s + 1, bit, n - 1);
    }
  }

  lemma ReadDone(text: string, n: nat)
    requires text == [] || !IsDigit(text[0])
    ensures ReadNumber(text, n) == (n, text)
  {
  }

  lemma ReadBlankBit(st: Vector, c: char, more: string)
    requires st.dst < |st.buf| && st.text == [c] + more && (c == '_' || c == ' ')
    ensures ReadBit(st) == Going(st.(text := more))
  {
    assert st.text[1..] == more;
  }

  lemma LoadBitRun(st: Vector, bits: seq<bool>, s: nat, n: nat, more: string)
    requires LoadedBits(st, bits, s) && 1 <= n < U64_SIZE && s + n <= |bits| && forall i :: s <= i < s + n ==> bits[i] == bits[s]
    requires st.text == (if bits[s] then "+" else "-") + Decimal(n) + "." + more
    ensures var r := ReadBit(st); r.Going? && LoadedBits(r.state, bits, s + n) && r.state.text == more
  {
    hide Decimal, FillBits, ReadNumber;
    assert st.text[1..] == Decimal(n) + ("." + more);
    ReadDecimal(n, "." + more);
    ReadDone("." + more, n);
    assert ("." + more)[1..] == more;
    LoadFillBits(st.(text := more), bits, s, bits[s], n);
  }

  lemma LoadBitChar(st: Vector, bits: seq<bool>, s: nat, more: string)
    requires LoadedBits(st, bits, s) && s < |bits| && st.text == [BitChar(bits[s])] + more
    ensures var r := ReadBit(st); r.Going? && LoadedBits(r.state, bits, s + 1) && r.state.text == more
  {
    hide Decimal, FillBits, ReadNumber;
    assert st.text[1..] == more;
  }

  lemma {:induction false} LoadBitItems(st: Vector, bits: seq<bool>, s: nat, compact: bool, rest: string)
    requires LoadedBits(st, bits, s) && |bits| < U64_SIZE && st.text == RenderBitItems(bits, s, compact) + rest
    ensures var r := ReadVector(st); r.Going? && r.state.buf == bits && r.state.text == rest
    decreases |bits| - s
  {
    hide Decimal, ReadBit;
    if s == |bits| {
      assert st.buf == bits && st.text == rest;
      return;
    }
    var (item, n) := BitItem(bits, s, compact);
    var more := RenderBitItems(bits, s + n, compact) + rest;
    assert st.text == item + more;
    if compact && Same(bits, s) >= 3 {
      LoadBitRun(st, bits, s, n, more);
      LoadBitItems(ReadBit(st).state, bits, s + n, compact, rest);
    } else {
      var st1 := st;
      if !compact && s > 0 && s % 8 == 0 {
        assert st.text == "_" + ([BitChar(bits[s])] + more);
        st1 := st.(text := [BitChar(bits[s])] + more);
        ReadBlankBit(st, '_', st1.text);
      }
      assert st1.text == [BitChar(bits[s])] + more;
      LoadBitChar(st1, bits, s, more);
      LoadBitItems(ReadBit(st1).state, bits, s + 1, compact, rest);
    }
  }

  lemma RenderNoBits(bits: seq<bool>, compact: bool)
    requires bits == []
    ensures RenderBitItems(bits, 0, compact) == ""
  {
  }

  // Loading what was printed gives the bits back and leaves what followed.
  lemma RoundTripBits(bits: seq<bool>, compact: bool, buf: seq<bool>, rest: string)
    requires |buf| == |bits| < U64_SIZE
    ensures var r := LoadBits(buf, RenderBits(bits, compact) + rest);
      r.Going? && r.state.buf == bits && r.state.text == (if bits == [] then " " else "") + rest
  {
    hide Decimal, RenderBitItems;
    var text, items := RenderBits(bits, compact) + rest, RenderBitItems(bits, 0, compact) + rest;
    DecimalStart(|bits|);
    assert text == Decimal(|bits|) + (" " + items);
    ReadDecimal(|bits|, " " + items);
    assert (" " + items)[1..] == items;
    var st := Vector(buf, 0, " " + items);
    if bits == [] {
      RenderNoBits(bits, compact);
      assert buf == bits;
    } else {
      assert ReadBit(st) == Going(st.(text := items));
      LoadBitItems(st.(text := items), bits, 0, compact, rest);
    }
  }

  // ----- the loops

  method RenderBit(buf: seq<bool>, s: nat, compact: bool) returns (item: string, n: nat)
    requires s < |buf|
    ensures (item, n) == BitItem(buf, s, compact)
  {
    hide Decimal;
    item, n := "", 1;
    if !compact && s > 0 && s % 8 == 0 {
      item := "_";
    }
    if compact && s + 2 < |buf| && buf[s + 1] == buf[s] && buf[s + 2] == buf[s] {
      n := RunLength(buf, s, buf[s], 2);
      SameFrom(buf, s, 3);
      var run := (if buf[s] then "+" else "-") + Decimal(n) + ".";
      item := item + run;
      assert item == run;
    } else {
      item := item + [BitChar(buf[s])];
    }
  }

  method RenderBitVector(buf: seq<bool>, compact: bool) returns (os: string)
    ensures os == RenderBits(buf, compact)
  {
    hide BitItem;
    os := Decimal(|buf|) + " ";
    var s := 0;
    while s < |buf|
      invariant s <= |buf| && os + RenderBitItems(buf, s, compact) == RenderBits(buf, compact)
    {
      var item, n := RenderBit(buf, s, compact);
      os := os + item;
      s := s + n;
    }
  }

  ghost function State(buf: array<bool>, dst: nat, text: string, pos: nat): Vector
    requires pos <= |text|
    reads buf
  {
    Vector(buf[..], dst, text[pos..])
  }

  method WriteBit(buf: array<bool>, dst: nat, bit: bool)
    requires dst < buf.Length
    modifies buf
    ensures buf[..] == old(buf[..])[dst := bit]
  {
    buf[dst] := bit;
  }

  method WriteBits(buf: array<bool>, start: nat, bit: bool, n: nat, ghost text: string) returns (dst: nat)
    modifies buf
    ensures Vector(buf[..], dst, text) == FillBits(Vector(old(buf[..]), start, text), bit, n)
  {
    dst := start;
    var i := 0;
    while i < n && dst < buf.Length
      invariant i <= n
      invariant FillBits(Vector(buf[..], dst, text), bit, n - i) == FillBits(Vector(old(buf[..]), start, text), bit, n)
    {
      WriteBit(buf, dst, bit);
      dst := dst + 1;
      i := i + 1;
    }
  }

  method LoadBit(text: string, pos: nat, buf: array<bool>, dst: nat) returns (ok: bool, pos': nat, dst': nat)
    requires pos < |text| && dst < buf.Length
    modifies buf
    ensures pos' <= |text|
    ensures ReadBit(old(State(buf, dst, text, pos))) == if ok then Going(State(buf, dst', text, pos')) else Failed
  {
    hide ReadNumber, FillBits;
    var c, d, n, next;
    c, next := Get(text, pos);
    assert text[pos..][1..] == text[next..];
    ok, pos', dst' := true, next, dst;
    if c == '_' as int || IsSpace(c as char) {
    } else if c == '+' as int || c == '-' as int {
      n, d, pos' := GetNumber(text, next);
      if d == '.' as int {
        dst' := WriteBits(buf, dst, c == '+' as int, n, text[pos'..]);
      } else {
        ok := false;
      }
    } else if c == '1' as int || c == '0' as int {
      WriteBit(buf, dst, c == '1' as int);
      dst' := dst + 1;
    } else {
      ok := false;
    }
  }

  method LoadBitVector(buf: array<bool>, text: string) returns (ok: bool, pos: nat)
    modifies buf
    ensures pos <= |text|
    ensures var r := LoadBits(old(buf[..]), text);
      if ok then r.Going? && r.state.buf == buf[..] && r.state.text == text[pos..] else r.Failed?
  {
    hide ReadBit, ReadNumber;
    var size;
    size, pos := GetSize(text);
    ok := size == buf.Length;
    var dst: nat := 0;
    while ok && dst < buf.Length && pos < |text|
      invariant pos <= |text|
      invariant LoadBits(old(buf[..]), text) == if ok then ReadVector(State(buf, dst, text, pos)) else Failed
      decreases ok, |text| - pos
    {
      ok, pos, dst := LoadBit(text, pos, buf, dst);
    }
  }
}
