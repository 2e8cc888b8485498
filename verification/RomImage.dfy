// sim/config.cpp, programs/mgsim.h: what lies in the image of a registry, word by word. Blocks are
// counted as a reader meets them, following the next words from the first one at offset 1.
module RomImage {
  import opened Arith
  import opened Bits
  import opened RomLayout
  import opened RomReader
  import opened RomText
  import opened Options

  // Where the payload of the k-th block begins.
  ghost function Payload(reg: Registry, k: nat): (p: nat)
    requires k < |Follow(Rom(reg), 1)|
    ensures 2 <= p <= |Rom(reg)|
  {
    Follow(Rom(reg), 1)[k] + 2
  }

  lemma {:induction false} StartsAt(bs: seq<Block>, from: nat)
    requires from <= |bs|
    ensures |Starts(bs, from)| == |bs| - from
    ensures forall k :: 0 <= k < |bs| - from ==> Starts(bs, from)[k] == StartOf(bs, from + k)
    decreases |bs| - from
  {
    hide StartOf;
    if from < |bs| {
      StartsAt(bs, from + 1);
    }
  }

  lemma BlocksMet(reg: Registry)
    requires |Rom(reg)| < U32_SIZE
    ensures |Follow(Rom(reg), 1)| == |Blocks(reg)| == FirstSymbol(reg) + |reg.symbols|
    ensures forall k :: 0 <= k < |Blocks(reg)| ==> Payload(reg, k) == StartOf(Blocks(reg), k) + 2
  {
    hide Rom, Blocks, StartOf, Starts, Follow, FirstSymbol, Own, Attrs, TypeList, ObjList;
    ChainOfRegistry(reg);
    StartsAt(Blocks(reg), 0);
    BlockKinds(reg);
  }

  lemma PayloadOf(reg: Registry, k: nat)
    requires |Rom(reg)| < U32_SIZE && k < |Blocks(reg)|
    ensures k < |Follow(Rom(reg), 1)| && PayloadAt(reg, Payload(reg, k), Blocks(reg)[k].payload)
    ensures Payload(reg, k) >= 2 && Rom(reg)[Payload(reg, k) - 2] == Blocks(reg)[k].tag
  {
    hide Rom, Blocks, StartOf, Follow, Payload, PayloadAt;
    BlocksMet(reg);
    BlockPayload(reg, k);
    StartSmall(reg, k);
  }

  // The image begins with the magic number, a block with the types, one for the attributes of each
  // type that has any, one for each object, one with the raw configuration, and one for each string.
  lemma KindsOfBlocks(reg: Registry, k: nat)
    requires |Rom(reg)| < U32_SIZE && k < |Follow(Rom(reg), 1)|
    ensures |Follow(Rom(reg), 1)| == FirstObject(reg) + |ObjList(reg)| + 1 + |reg.symbols|
    ensures Rom(reg)[0] == 0x53474d23
    ensures Rom(reg)[Payload(reg, k) - 2] ==
      if k == 0 then 1 else if k < FirstObject(reg) then 2 else if k < FirstObject(reg) + |ObjList(reg)| then 4
      else if k == FirstObject(reg) + |ObjList(reg)| then 3 else 5
  {
    hide Rom, Blocks, StartOf, Follow, Own, Attrs, TypeList, ObjList, FirstObject, Payload, PayloadAt, TypeIndex, ObjType;
    BlocksMet(reg);
    BlockKinds(reg);
    PayloadOf(reg, k);
    Magic(reg);
    assert TypeBlock(reg).tag == 1 && RawBlock(reg).tag == 3;
  }

  lemma Magic(reg: Registry)
    ensures Rom(reg) != [] && Rom(reg)[0] == 0x53474d23
  {
    hide Blocks, StartOf, Links;
    ChainEnd(Blocks(reg));
  }

  ghost predicate Ascending(s: seq<nat>) {
    forall i, j :: 0 <= i < j < |s| ==> s[i] < s[j]
  }

  // An object of the type has a property of this label.
  ghost predicate Uses(reg: Registry, o: Obj, t: Sym, a: Sym) {
    o in reg.props && ObjType(reg, o) == t && exists k :: 0 <= k < |reg.props[o]| && reg.props[o][k].0 == a
  }

  // The lists behind the blocks, in the order of the containers: the types of all objects, the labels
  // that objects of a type use, and the objects.
  lemma ListsMean(reg: Registry, t: Sym)
    ensures Ascending(TypeList(reg)) && forall s :: s in TypeList(reg) <==> exists o :: o in reg.objects && reg.objects[o] == s
    ensures Ascending(Attrs(reg, t)) && forall a :: a in Attrs(reg, t) <==> exists o :: Uses(reg, o, t, a)
    ensures Ascending(ObjList(reg)) && forall o :: o in ObjList(reg) <==> o in reg.objects
  {
    OrderedLists(reg, t);
    hide Ordered, Attrs, ValueOf, ObjType;
    forall a
      ensures a in Attrs(reg, t) <==> exists o :: Uses(reg, o, t, a)
    {
      AttrsMean(reg, t, a);
      forall o
        ensures o in reg.props && ObjType(reg, o) == t && ValueOf(reg, o, a) != None <==> Uses(reg, o, t, a)
      {
        ValueOfMeans(reg, o, a);
      }
    }
  }

  lemma OrderedLists(reg: Registry, t: Sym)
    ensures Ascending(TypeList(reg)) && forall s :: s in TypeList(reg) <==> exists o :: o in reg.objects && reg.objects[o] == s
    ensures Ascending(Attrs(reg, t))
    ensures Ascending(ObjList(reg)) && forall o :: o in ObjList(reg) <==> o in reg.objects
  {
    hide Ordered, AttrSet;
    OrderedKeys(set o | o in reg.objects :: reg.objects[o]);
    OrderedKeys(AttrSet(reg, t));
    OrderedKeys(reg.objects.Keys);
  }

  // ----- strings

  // The string at w: a block of its own, its length, and its characters, four to a word from the low
  // end, up to and including the first above 127.
  ghost predicate StringAt(rom: seq<u32>, w: nat, text: seq<u8>) {
    && 2 <= w && w + 1 + |text| / 4 < |rom|
    && rom[w - 2] == 5 && rom[w] == |text| % 0x1_0000_0000
    && forall k :: 0 <= k < |text| && (forall j :: 0 <= j < k ==> text[j] < 128) ==> CharAtIs(rom[w + 1 + k / 4], k % 4, text[k])
  }

  ghost predicate CharAtIs(word: u32, b: nat, c: nat) {
    && (b == 0 ==> word % 0x100 == c) && (b == 1 ==> word / 0x100 % 0x100 == c)
    && (b == 2 ==> word / 0x1_0000 % 0x100 == c) && (b == 3 ==> word / 0x100_0000 == c)
  }

  lemma StringImage(reg: Registry, s: Sym)
    requires s in reg.symbols && |Rom(reg)| < U32_SIZE
    ensures StringAt(Rom(reg), Addr(reg, SymRef(s)), Text(reg, s))
  {
    hide Rom, Addr, HoldsText, CharByte;
    SymbolReads(reg, s);
    SymbolHeader(reg, s);
    var text, w := Text(reg, s), Addr(reg, SymRef(s));
    TextInside(Rom(reg), w, text);
    forall k: nat | k < |text| && (forall j :: 0 <= j < k ==> text[j] < 128)
      ensures CharAtIs(Rom(reg)[w + 1 + k / 4], k % 4, text[k])
    {
      PrefixReads(Rom(reg), w, text, k);
      ByteIs(Rom(reg), w, k, text[k]);
    }
  }

  lemma TextInside(rom: seq<u32>, w: nat, text: seq<u8>)
    requires HoldsText(rom, w, text)
    ensures w + 1 + |text| / 4 < |rom|
  {
  }

  lemma ByteIs(rom: seq<u32>, w: nat, k: nat, c: nat)
    requires w + 1 + k / 4 < |rom| && CharByte(rom, w, k) == c
    ensures CharAtIs(rom[w + 1 + k / 4], k % 4, c)
  {
  }

  lemma SymbolHeader(reg: Registry, s: Sym)
    requires s in reg.symbols && |Rom(reg)| < U32_SIZE
    ensures var w := Addr(reg, SymRef(s)); 2 <= w < |Rom(reg)| && Rom(reg)[w - 2] == 5 && Rom(reg)[w] == |Text(reg, s)| % 0x1_0000_0000
  {
    hide Rom, Blocks, TextCells, Follow, Own, TypeList, ObjList, FirstObject, Payload, AllLinks, AttrBlock, ObjectBlock, TypeBlock, RawBlock, PayloadAt;
    BlockKinds(reg);
    var i :| 0 <= i < |reg.symbols| && reg.symbols[i] == s;
    var b := SymbolBlock(reg, s);
    assert Blocks(reg)[FirstSymbol(reg) + i] == b;
    var j := RefBlock(reg, b);
    PayloadOf(reg, j);
    FirstCell(reg, Payload(reg, j), b.payload);
  }

  // What a reference leads to is a block met on the way.
  lemma RefBlock(reg: Registry, b: Block) returns (j: nat)
    requires b in Blocks(reg) && b.defines.Some? && |Rom(reg)| < U32_SIZE
    ensures j < |Blocks(reg)| == |Follow(Rom(reg), 1)| && Blocks(reg)[j] == b && Addr(reg, b.defines.value) == Payload(reg, j)
  {
    hide Blocks, Links, Low32, StartOf, Rom, Follow, Payload;
    var bs := Blocks(reg);
    var k :| 0 <= k < |bs| && bs[k] == b;
    j := LinkLeadsTo(bs, |bs|, b.defines.value, k);
    TagsNotZero(reg);
    OwnTwice(reg, b, bs[j]);
    StartSmall(reg, j);
    BlocksMet(reg);
  }

  lemma FirstCell(reg: Registry, p: nat, payload: seq<Cell>)
    requires PayloadAt(reg, p, payload) && payload != [] && payload[0].Word?
    ensures p < |Rom(reg)| && Rom(reg)[p] == payload[0].w
  {
    hide Rom, AllLinks;
    assert Rom(reg)[p + 0] == Resolve(payload[0], AllLinks(reg));
  }

  // Every cell of a payload in place.
  lemma CellAt(reg: Registry, p: nat, payload: seq<Cell>, i: nat)
    requires PayloadAt(reg, p, payload) && i < |payload|
    ensures p + i < |Rom(reg)|
    ensures Rom(reg)[p + i] == match payload[i] case Word(w) => w case Link(r) => Addr(reg, r)
  {
    hide Rom, AllLinks;
  }

  // ----- types and attributes

  // An attribute table at q: a block of its own, the number of attributes, the type, and the name of
  // each.
  ghost predicate AttributesAt(rom: seq<u32>, q: nat, typ: nat, names: seq<seq<u8>>) {
    && 2 <= q && q + 2 + |names| < |rom|
    && rom[q - 2] == 2 && rom[q] == |names| && rom[q + 1] == typ
    && forall j :: 0 <= j < |names| ==> StringAt(rom, rom[q + 2 + j], names[j])
  }

  ghost function Names(reg: Registry, syms: seq<Sym>): (names: seq<seq<u8>>)
    ensures |names| == |syms|
    ensures forall j :: 0 <= j < |syms| ==> names[j] == Text(reg, syms[j])
  {
    seq(|syms|, j requires 0 <= j < |syms| => Text(reg, syms[j]))
  }

  // The type table: how many types there are, and of each the name and the attributes.
  lemma TypesImage(reg: Registry, i: nat)
    requires WellFormed(reg) && |Rom(reg)| < U32_SIZE && i < |TypeList(reg)|
    ensures var t := TypeList(reg)[i];
      && 5 + 2 * i < |Rom(reg)| && Rom(reg)[1] == 1 && Rom(reg)[3] == |TypeList(reg)|
      && StringAt(Rom(reg), Rom(reg)[4 + 2 * i], Text(reg, t))
      && if Attrs(reg, t) == [] then Rom(reg)[5 + 2 * i] == 0
         else AttributesAt(Rom(reg), Rom(reg)[5 + 2 * i], i, Names(reg, Attrs(reg, t)))
  {
    hide Rom, Attrs, TypeList, Addr, StringAt, AttributesAt, WellFormed, Text, Names, Ordered;
    TypeTableReads(reg);
    FirstTag(reg);
    TypesAreSymbols(reg);
    var t := TypeList(reg)[i];
    StringImage(reg, t);
    if Attrs(reg, t) != [] {
      AttributesImage(reg, i);
    }
    assert Rom(reg)[3 + (1 + 2 * i)] == Rom(reg)[4 + 2 * i] && Rom(reg)[3 + (1 + 2 * i + 1)] == Rom(reg)[5 + 2 * i];
  }

  lemma FirstTag(reg: Registry)
    ensures |Rom(reg)| > 1 && Rom(reg)[1] == 1
  {
    hide Rom, Blocks, Attrs, TypeList, FirstObject, Own, ObjList, PayloadAt;
    BlockKinds(reg);
    BlockPayload(reg, 0);
    FirstStart(reg);
    assert TypeBlock(reg).tag == 1;
  }

  lemma FirstStart(reg: Registry)
    ensures |Rom(reg)| > 1 && StartOf(Blocks(reg), 0) == 1
  {
    hide Blocks, Links;
    ChainEnd(Blocks(reg));
  }

  lemma AttributesImage(reg: Registry, i: nat)
    requires WellFormed(reg) && |Rom(reg)| < U32_SIZE && i < |TypeList(reg)| && Attrs(reg, TypeList(reg)[i]) != []
    ensures AttributesAt(Rom(reg), Addr(reg, AttrRef(TypeList(reg)[i])), i, Names(reg, Attrs(reg, TypeList(reg)[i])))
  {
    hide Rom, Attrs, TypeList, Addr, StringAt, WellFormed, Text, Names, Blocks, Follow, Payload, PayloadAt, Own, FirstObject, ObjList, TypeIndex, SymLinks, ObjectBlock, SymbolBlock, TypeBlock, RawBlock, Low32;
    var t := TypeList(reg)[i];
    var attrs, b := Attrs(reg, t), AttrBlock(reg, t);
    AttrTableReads(reg, i);
    BlockKinds(reg);
    var k := RefBlock(reg, b);
    PayloadOf(reg, k);
    CellAt(reg, Payload(reg, k), b.payload, 1);
    TypePlace(reg, i);
    AttrsAreSymbols(reg, t);
    forall j | 0 <= j < |attrs|
      ensures StringAt(Rom(reg), Rom(reg)[Payload(reg, k) + 2 + j], Names(reg, attrs)[j])
    {
      StringImage(reg, attrs[j]);
    }
  }

  lemma TypePlace(reg: Registry, i: nat)
    requires |Rom(reg)| < U32_SIZE && i < |TypeList(reg)|
    ensures Low32(TypeIndex(reg, TypeList(reg)[i])) == i
  {
    hide Rom, Ordered;
    TypeTableReads(reg);
    OrderedKeys(set o | o in reg.objects :: reg.objects[o]);
    Low32Small(i);
  }

  // ----- objects

  lemma ObjectImage(reg: Registry, i: nat)
    requires WellFormed(reg) && |Rom(reg)| < U32_SIZE && i < |ObjList(reg)|
    ensures FirstObject(reg) + i < |Follow(Rom(reg), 1)|
    ensures var p, t := Payload(reg, FirstObject(reg) + i), ObjType(reg, ObjList(reg)[i]);
      p + 2 * |Attrs(reg, t)| < |Rom(reg)| && Rom(reg)[p] < |TypeList(reg)| && TypeList(reg)[Rom(reg)[p]] == t
  {
    hide Rom, Blocks, Follow, Payload, PayloadAt, Attrs, TypeList, ObjList, FirstObject, PropEntries, Own, TypeIndex;
    var o := ObjList(reg)[i];
    var k, b := FirstObject(reg) + i, ObjectBlock(reg, o);
    ObjectBlockAt(reg, i);
    CellAt(reg, Payload(reg, k), b.payload, 0);
    TypeListed(reg, i);
    PropEntriesAt(reg, o, Attrs(reg, ObjType(reg, o)), |Attrs(reg, ObjType(reg, o))|);
    PayloadInside(reg, Payload(reg, k), b.payload);
  }

  lemma PayloadInside(reg: Registry, p: nat, payload: seq<Cell>)
    requires PayloadAt(reg, p, payload)
    ensures p + |payload| < |Rom(reg)|
  {
  }

  lemma ObjectBlockAt(reg: Registry, i: nat)
    requires |Rom(reg)| < U32_SIZE && i < |ObjList(reg)|
    ensures var k := FirstObject(reg) + i;
      && k < |Follow(Rom(reg), 1)| && PayloadAt(reg, Payload(reg, k), ObjectBlock(reg, ObjList(reg)[i]).payload)
      && Rom(reg)[Payload(reg, k) - 2] == 4
  {
    hide Rom, Blocks, Follow, Payload, PayloadAt, Attrs, TypeList, ObjList, FirstObject, PropEntries, Own, TypeIndex, ObjType;
    BlockKinds(reg);
    PayloadOf(reg, FirstObject(reg) + i);
  }

  // The type number of an object is the place of its type in the type table.
  lemma TypeListed(reg: Registry, i: nat)
    requires i < |ObjList(reg)| && |Rom(reg)| < U32_SIZE
    ensures var t := ObjType(reg, ObjList(reg)[i]);
      TypeIndex(reg, t) < |TypeList(reg)| && TypeList(reg)[TypeIndex(reg, t)] == t && Low32(TypeIndex(reg, t)) == TypeIndex(reg, t)
  {
    hide Rom, Ordered;
    TypeTableReads(reg);
    OrderedKeys(reg.objects.Keys);
    OrderedKeys(set o | o in reg.objects :: reg.objects[o]);
    var o := ObjList(reg)[i];
    assert o in ObjList(reg);
    assert ObjType(reg, o) in set o' | o' in reg.objects :: reg.objects[o'];
    assert ObjType(reg, o) in TypeList(reg);
    Low32Small(TypeIndex(reg, ObjType(reg, o)));
  }

  // The two words of an attribute tell its value: 0 without one, 1 for void, 2 and a string, 3 and an
  // object, 4 and a number.
  lemma PropertyImage(reg: Registry, i: nat, j: nat)
    requires WellFormed(reg) && |Rom(reg)| < U32_SIZE && i < |ObjList(reg)|
    requires j < |Attrs(reg, ObjType(reg, ObjList(reg)[i]))|
    ensures FirstObject(reg) + i < |Follow(Rom(reg), 1)|
    ensures var p, o := Payload(reg, FirstObject(reg) + i), ObjList(reg)[i];
      var e := ValueOf(reg, o, Attrs(reg, ObjType(reg, o))[j]);
      && p + 2 + 2 * j < |Rom(reg)|
      && var kind, word := Rom(reg)[p + 1 + 2 * j], Rom(reg)[p + 2 + 2 * j];
      match e
      case None => kind == 0 && word == 0
      case Some(Void) => kind == 1 && word == 0
      case Some(SymbolOf(s)) => kind == 2 && StringAt(Rom(reg), word, Text(reg, s))
      case Some(ObjectOf(o')) => kind == 3 && ObjectBlockIs(reg, word, o')
      case Some(Uint(v)) => kind == 4 && word == v
  {
    hide Rom, Blocks, Follow, Payload, PayloadAt, Attrs, TypeList, ObjList, FirstObject, PropEntries, Own, TypeIndex, ObjType, ValueOf, Text, StringAt, Addr, WellFormed, ObjectBlockIs;
    var o := ObjList(reg)[i];
    var attrs, b := Attrs(reg, ObjType(reg, o)), ObjectBlock(reg, o);
    ObjectBlockAt(reg, i);
    var p, e := Payload(reg, FirstObject(reg) + i), ValueOf(reg, o, attrs[j]);
    PropEntriesAt(reg, o, attrs, |attrs|);
    CellAt(reg, p, b.payload, 1 + 2 * j);
    CellAt(reg, p, b.payload, 2 + 2 * j);
    assert b.payload[1 + 2 * j] == PropEntries(reg, o, attrs, |attrs|)[2 * j];
    assert b.payload[2 + 2 * j] == PropEntries(reg, o, attrs, |attrs|)[2 * j + 1];
    ValueKnown(reg, o, attrs[j]);
    match e
    case Some(SymbolOf(s)) => StringImage(reg, s);
    case Some(ObjectOf(o')) => ObjectRefImage(reg, o');
    case _ =>
  }

  // The payload of the block of object o, the one met in its place among the objects.
  ghost predicate ObjectBlockIs(reg: Registry, w: nat, o: Obj) {
    && 2 <= w <= |Rom(reg)| && Rom(reg)[w - 2] == 4
    && exists m :: 0 <= m < |ObjList(reg)| && ObjList(reg)[m] == o
                   && FirstObject(reg) + m < |Follow(Rom(reg), 1)| && w == Payload(reg, FirstObject(reg) + m)
  }

  lemma ObjectRefImage(reg: Registry, o: Obj)
    requires o in reg.objects && |Rom(reg)| < U32_SIZE
    ensures ObjectBlockIs(reg, Addr(reg, ObjRef(o)), o)
  {
    hide Rom, Blocks, Follow, Payload, PayloadAt, Attrs, TypeList, Ordered, FirstObject, Own, TypeIndex, ObjType, PropEntries, Addr, AttrBlock, SymbolBlock, TypeBlock, RawBlock;
    OrderedKeys(reg.objects.Keys);
    assert o in ObjList(reg);
    var m: nat :| m < |ObjList(reg)| && ObjList(reg)[m] == o;
    var b := ObjectBlock(reg, o);
    BlockKinds(reg);
    assert Blocks(reg)[FirstObject(reg) + m] == b;
    var j := RefBlock(reg, b);
    OnlyBlock(reg, j, o);
    PayloadOf(reg, j);
  }

  // A block that defines an object is one of the object blocks, and objects are listed once.
  lemma OnlyBlock(reg: Registry, j: nat, o: Obj)
    requires j < |Blocks(reg)| && Blocks(reg)[j] == ObjectBlock(reg, o)
    ensures FirstObject(reg) <= j < FirstObject(reg) + |ObjList(reg)| && ObjList(reg)[j - FirstObject(reg)] == o
  {
    hide Blocks, Attrs, TypeList, ObjList, FirstObject, TypeIndex, ObjType, PropEntries;
    BlockKinds(reg);
    assert TypeBlock(reg).defines == None && RawBlock(reg).defines == None;
  }

  lemma ValueKnown(reg: Registry, o: Obj, a: Sym)
    requires WellFormed(reg)
    ensures match ValueOf(reg, o, a)
      case Some(SymbolOf(s)) => s in reg.symbols
      case Some(ObjectOf(o')) => o' in reg.objects
      case _ => true
  {
    hide LastValue;
    LastValueMeans(Props(reg, o), |Props(reg, o)|, a);
  }

  // ----- the raw configuration

  lemma {:induction false} RawEntriesAt(raw: seq<(Sym, Sym)>, n: nat)
    requires n <= |raw|
    ensures |RawEntries(raw, n)| == 2 * n
    ensures forall i :: 0 <= i < n ==>
      RawEntries(raw, n)[2 * i] == Link(SymRef(raw[i].0)) && RawEntries(raw, n)[2 * i + 1] == Link(SymRef(raw[i].1))
  {
    if n > 0 {
      RawEntriesAt(raw, n - 1);
    }
  }

  lemma RawImage(reg: Registry, i: nat)
    requires WellFormed(reg) && |Rom(reg)| < U32_SIZE && i < |reg.raw|
    ensures FirstObject(reg) + |ObjList(reg)| < |Follow(Rom(reg), 1)|
    ensures var p := Payload(reg, FirstObject(reg) + |ObjList(reg)|);
      && p + 2 + 2 * i < |Rom(reg)| && Rom(reg)[p - 2] == 3 && Rom(reg)[p] == |reg.raw|
      && StringAt(Rom(reg), Rom(reg)[p + 1 + 2 * i], Text(reg, reg.raw[i].0))
      && StringAt(Rom(reg), Rom(reg)[p + 2 + 2 * i], Text(reg, reg.raw[i].1))
  {
    hide Rom, Blocks, Follow, Payload, PayloadAt, TypeList, ObjList, FirstObject, RawEntries, Own, Text, StringAt, Addr, Low32;
    var k, b := FirstObject(reg) + |ObjList(reg)|, RawBlock(reg);
    BlockKinds(reg);
    PayloadOf(reg, k);
    var p := Payload(reg, k);
    RawEntriesAt(reg.raw, |reg.raw|);
    PayloadInside(reg, p, b.payload);
    Low32Small(|reg.raw|);
    CellAt(reg, p, b.payload, 0);
    CellAt(reg, p, b.payload, 1 + 2 * i);
    CellAt(reg, p, b.payload, 2 + 2 * i);
    assert b.payload[1 + 2 * i] == RawEntries(reg.raw, |reg.raw|)[2 * i];
    assert b.payload[2 + 2 * i] == RawEntries(reg.raw, |reg.raw|)[2 * i + 1];
    StringImage(reg, reg.raw[i].0);
    StringImage(reg, reg.raw[i].1);
  }
}
