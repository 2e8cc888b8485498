// programs/mtconf.c: the boot code that decodes the configuration ROM knowing only offsets.
module RomReader {
  import opened Arith
  import opened Bits
  import opened RomLayout
  import opened Options

  // ----- the chain of blocks, seen from its words

  lemma {:induction false} ChainGrows(bs: seq<Block>, m: nat, n: nat)
    requires m <= n <= |bs|
    ensures Chain(bs, m) <= Chain(bs, n)
    decreases n
  {
    hide Chain, Placed;
    if m < n {
      ChainStep(bs, n - 1);
      ChainGrows(bs, m, n - 1);
    }
  }

  ghost function Image(bs: seq<Block>): seq<u32> {
    Resolved(RomCells(bs), Links(bs, |bs|))
  }

  lemma MiddlePart(all: seq<Cell>, front: seq<Cell>, part: seq<Cell>, first: Cell, last: Cell)
    requires front + part <= all
    ensures 1 + |front| + |part| < |[first] + all + [last]|
    ensures forall i :: 0 <= i < |part| ==> ([first] + all + [last])[1 + |front| + i] == part[i]
  {
    assert forall i :: 0 <= i < |part| ==> all[|front| + i] == (front + part)[|front| + i] == part[i];
  }

  lemma BlockCells(bs: seq<Block>, k: nat)
    requires k < |bs|
    ensures var s, placed := StartOf(bs, k), Placed(bs[k], StartOf(bs, k));
      s + |placed| < |RomCells(bs)| && forall i :: 0 <= i < |placed| ==> RomCells(bs)[s + i] == placed[i]
  {
    hide Chain, Placed;
    ChainStep(bs, k);
    ChainGrows(bs, k + 1, |bs|);
    MiddlePart(Chain(bs, |bs|), Chain(bs, k), Placed(bs[k], StartOf(bs, k)), Word(CONF_MAGIC), Word(0));
  }

  lemma CellsInPlace(bs: seq<Block>, k: nat)
    requires k < |bs|
    ensures var s := StartOf(bs, k);
      && StartOf(bs, k + 1) == s + 2 + |bs[k].payload| < |RomCells(bs)|
      && RomCells(bs)[s] == Word(bs[k].tag) && RomCells(bs)[s + 1] == Word(Low32(StartOf(bs, k + 1)))
      && forall i :: 0 <= i < |bs[k].payload| ==> RomCells(bs)[s + 2 + i] == bs[k].payload[i]
  {
    hide Low32, Chain, Placed, RomCells;
    ChainStep(bs, k);
    var s, placed := StartOf(bs, k), Placed(bs[k], StartOf(bs, k));
    PlacedIs(bs[k], s);
    BlockCells(bs, k);
    forall i | 0 <= i < |bs[k].payload|
      ensures RomCells(bs)[s + 2 + i] == bs[k].payload[i]
    {
      assert placed[2 + i] == bs[k].payload[i];
    }
  }

  // Block k lies at StartOf(bs, k): tag, offset of block k + 1, payload with references resolved.
  lemma BlockInPlace(bs: seq<Block>, k: nat)
    requires k < |bs|
    ensures var s := StartOf(bs, k);
      && StartOf(bs, k + 1) == s + 2 + |bs[k].payload| < |Image(bs)|
      && Image(bs)[s] == bs[k].tag && Image(bs)[s + 1] == Low32(StartOf(bs, k + 1))
      && forall i :: 0 <= i < |bs[k].payload| ==>
           Image(bs)[s + 2 + i] == Resolve(bs[k].payload[i], Links(bs, |bs|))
  {
    hide Links, Low32, StartOf, RomCells;
    CellsInPlace(bs, k);
  }

  lemma ChainEnd(bs: seq<Block>)
    ensures |Image(bs)| == StartOf(bs, |bs|) + 1 && Image(bs)[StartOf(bs, |bs|)] == 0
    ensures Image(bs)[0] == CONF_MAGIC
  {
    hide Chain, Links;
  }

  lemma Low32Small(x: nat)
    requires x < U32_SIZE
    ensures Low32(x) == x
  {
    ModSmall(x, U32_SIZE);
  }

  // The offsets met when following the next words from p up to a zero tag.
  ghost function Follow(rom: seq<u32>, p: nat): (starts: seq<nat>)
    ensures forall k :: 0 <= k < |starts| ==> starts[k] + 1 < |rom|
    decreases |rom| - p
  {
    if p + 1 < |rom| && rom[p] != 0 && p < rom[p + 1] then [p] + Follow(rom, rom[p + 1]) else []
  }

  ghost function Starts(bs: seq<Block>, from: nat): seq<nat>
    requires from <= |bs|
    decreases |bs| - from
  {
    if from == |bs| then [] else [StartOf(bs, from)] + Starts(bs, from + 1)
  }

  // Following the chain visits exactly the emitted blocks, in order.
  lemma {:induction false} FollowVisitsBlocks(bs: seq<Block>, k: nat)
    requires k <= |bs| && |Image(bs)| < U32_SIZE
    requires forall i :: 0 <= i < |bs| ==> bs[i].tag != 0
    ensures Follow(Image(bs), StartOf(bs, k)) == Starts(bs, k)
    decreases |bs| - k
  {
    hide Image, StartOf, Links, Low32, Resolve;
    ChainEnd(bs);
    if k < |bs| {
      BlockInPlace(bs, k);
      Low32Small(StartOf(bs, k + 1));
      assert Image(bs)[StartOf(bs, k) + 1] == StartOf(bs, k + 1);
      FollowVisitsBlocks(bs, k + 1);
    }
  }

  // A reference is resolved to the payload of a block that defines it.
  lemma {:induction false} LinkLeadsTo(bs: seq<Block>, n: nat, r: Ref, k: nat) returns (j: nat)
    requires k < n <= |bs| && bs[k].defines == Some(r)
    ensures j < n && bs[j].defines == Some(r)
    ensures r in Links(bs, n) && Links(bs, n)[r] == StartOf(bs, j) + 2
  {
    hide StartOf;
    if bs[n - 1].defines == Some(r) {
      j := n - 1;
    } else {
      j := LinkLeadsTo(bs, n - 1, r, k);
    }
  }

  // ----- the blocks of a registry

  // A block that a reference names is the block made for that name.
  ghost predicate Own(reg: Registry, b: Block) {
    match b.defines
    case None => true
    case Some(SymRef(s)) => b == SymbolBlock(reg, s)
    case Some(AttrRef(t)) => b == AttrBlock(reg, t)
    case Some(ObjRef(o)) => b == ObjectBlock(reg, o)
  }

  lemma {:induction false} AttrBlocksShape(reg: Registry, types: seq<Sym>, n: nat)
    requires n <= |types|
    ensures forall k :: 0 <= k < |AttrBlocks(reg, types, n)| ==>
      Own(reg, AttrBlocks(reg, types, n)[k]) && AttrBlocks(reg, types, n)[k].tag == TAG_ATTRTABLE
    ensures forall i :: 0 <= i < n && Attrs(reg, types[i]) != [] ==> AttrBlock(reg, types[i]) in AttrBlocks(reg, types, n)
  {
    hide Attrs, TypeIndex, SymLinks, Low32;
    if n > 0 {
      AttrBlocksShape(reg, types, n - 1);
    }
  }

  lemma {:induction false} ObjectBlocksShape(reg: Registry, objs: seq<Obj>, n: nat)
    requires n <= |objs|
    ensures |ObjectBlocks(reg, objs, n)| == n
    ensures forall k :: 0 <= k < n ==> ObjectBlocks(reg, objs, n)[k] == ObjectBlock(reg, objs[k])
  {
    hide ObjectBlock;
    if n > 0 {
      ObjectBlocksShape(reg, objs, n - 1);
    }
  }

  lemma {:induction false} SymbolBlocksShape(reg: Registry, syms: seq<Sym>, n: nat)
    requires n <= |syms|
    ensures |SymbolBlocks(reg, syms, n)| == n
    ensures forall k :: 0 <= k < n ==> SymbolBlocks(reg, syms, n)[k] == SymbolBlock(reg, syms[k])
  {
    hide SymbolBlock;
    if n > 0 {
      SymbolBlocksShape(reg, syms, n - 1);
    }
  }

  ghost function FirstObject(reg: Registry): nat {
    1 + |AttrBlocks(reg, TypeList(reg), |TypeList(reg)|)|
  }

  ghost function FirstSymbol(reg: Registry): nat {
    FirstObject(reg) + |ObjList(reg)| + 1
  }

  // Which block is where.
  lemma BlockKinds(reg: Registry)
    ensures var bs, base, n := Blocks(reg), FirstObject(reg), |ObjList(reg)|;
      && |bs| == FirstSymbol(reg) + |reg.symbols|
      && bs[0] == TypeBlock(reg)
      && (forall k :: 0 < k < base ==> Own(reg, bs[k]) && bs[k].tag == TAG_ATTRTABLE)
      && (forall k :: base <= k < base + n ==> bs[k] == ObjectBlock(reg, ObjList(reg)[k - base]))
      && bs[base + n] == RawBlock(reg)
      && (forall k :: base + n < k < |bs| ==> bs[k] == SymbolBlock(reg, reg.symbols[k - FirstSymbol(reg)]))
      && (forall i :: 0 <= i < |TypeList(reg)| && Attrs(reg, TypeList(reg)[i]) != [] ==>
           AttrBlock(reg, TypeList(reg)[i]) in bs)
  {
    hide TypeBlock, AttrBlocks, ObjectBlocks, RawBlock, SymbolBlocks, TypeList, ObjList, AttrBlock, ObjectBlock, SymbolBlock, Own, Attrs;
    AttrBlocksShape(reg, TypeList(reg), |TypeList(reg)|);
    ObjectBlocksShape(reg, ObjList(reg), |ObjList(reg)|);
    SymbolBlocksShape(reg, reg.symbols, |reg.symbols|);
  }

  // The chain of any registry's image, walked by its next words, is its list of blocks.
  lemma ChainOfRegistry(reg: Registry)
    requires |Rom(reg)| < U32_SIZE
    ensures Follow(Rom(reg), 1) == Starts(Blocks(reg), 0)
  {
    BlockKinds(reg);
    TagsNotZero(reg);
    hide Blocks, Links, Follow, Starts;
    FollowVisitsBlocks(Blocks(reg), 0);
  }

  lemma TagsNotZero(reg: Registry)
    ensures forall k :: 0 <= k < |Blocks(reg)| ==> Blocks(reg)[k].tag != 0 && Own(reg, Blocks(reg)[k])
  {
    hide Blocks, FirstObject, FirstSymbol, ObjList, Attrs, TypeIndex;
    BlockKinds(reg);
    forall k | 0 <= k < |Blocks(reg)|
      ensures Blocks(reg)[k].tag != 0 && Own(reg, Blocks(reg)[k])
    {
      assert TypeBlock(reg).tag != 0 && RawBlock(reg).tag != 0;
    }
  }

  // ----- what the words at a resolved reference are

  ghost function AllLinks(reg: Registry): map<Ref, nat> {
    Links(Blocks(reg), |Blocks(reg)|)
  }

  ghost function Addr(reg: Registry, r: Ref): u32 {
    Resolve(Link(r), AllLinks(reg))
  }

  // The words of a payload lie at p.
  ghost predicate PayloadAt(reg: Registry, p: nat, payload: seq<Cell>) {
    && p + |payload| < |Rom(reg)|
    && forall i :: 0 <= i < |payload| ==> Rom(reg)[p + i] == Resolve(payload[i], AllLinks(reg))
  }

  lemma BlockPayload(reg: Registry, k: nat)
    requires k < |Blocks(reg)|
    ensures var s := StartOf(Blocks(reg), k);
      && PayloadAt(reg, s + 2, Blocks(reg)[k].payload)
      && Rom(reg)[s] == Blocks(reg)[k].tag && Rom(reg)[s + 1] == Low32(StartOf(Blocks(reg), k + 1))
      && StartOf(Blocks(reg), k + 1) == s + 2 + |Blocks(reg)[k].payload|
  {
    hide Blocks, StartOf, Links, Low32, RomCells, Resolved;
    BlockInPlace(Blocks(reg), k);
  }

  lemma OwnTwice(reg: Registry, b: Block, b': Block)
    requires Own(reg, b) && Own(reg, b') && b.defines.Some? && b.defines == b'.defines
    ensures b == b'
  {
  }

  lemma RefPayload(reg: Registry, b: Block)
    requires b in Blocks(reg) && b.defines.Some? && |Rom(reg)| < U32_SIZE
    ensures PayloadAt(reg, Addr(reg, b.defines.value), b.payload) && Addr(reg, b.defines.value) > 2
  {
    hide Blocks, Links, Low32, PayloadAt, StartOf, Rom;
    var bs := Blocks(reg);
    var k :| 0 <= k < |bs| && bs[k] == b;
    var j := LinkLeadsTo(bs, |bs|, b.defines.value, k);
    TagsNotZero(reg);
    OwnTwice(reg, b, bs[j]);
    BlockPayload(reg, j);
    StartSmall(reg, j);
  }

  lemma StartSmall(reg: Registry, k: nat)
    requires k < |Blocks(reg)| && |Rom(reg)| < U32_SIZE
    ensures 0 < StartOf(Blocks(reg), k) && Low32(StartOf(Blocks(reg), k) + 2) == StartOf(Blocks(reg), k) + 2
  {
    hide Blocks, Links, Low32, Resolve;
    BlockInPlace(Blocks(reg), k);
    Low32Small(StartOf(Blocks(reg), k) + 2);
  }

  // ----- the entries inside each kind of block

  lemma {:induction false} TypeEntriesAt(reg: Registry, types: seq<Sym>, n: nat)
    requires n <= |types|
    ensures |TypeEntries(reg, types, n)| == 2 * n
    ensures forall i :: 0 <= i < n ==>
      && TypeEntries(reg, types, n)[2 * i] == Link(SymRef(types[i]))
      && TypeEntries(reg, types, n)[2 * i + 1] == if Attrs(reg, types[i]) == [] then Word(0) else Link(AttrRef(types[i]))
  {
    hide Attrs;
    if n > 0 {
      TypeEntriesAt(reg, types, n - 1);
    }
  }

  lemma {:induction false} SymLinksAt(syms: seq<Sym>, n: nat)
    requires n <= |syms|
    ensures |SymLinks(syms, n)| == n
    ensures forall j :: 0 <= j < n ==> SymLinks(syms, n)[j] == Link(SymRef(syms[j]))
  {
    if n > 0 {
      SymLinksAt(syms, n - 1);
    }
  }

  lemma {:induction false} PropEntriesAt(reg: Registry, o: Obj, attrs: seq<Sym>, n: nat)
    requires n <= |attrs|
    ensures |PropEntries(reg, o, attrs, n)| == 2 * n
    ensures forall j :: 0 <= j < n ==>
      && PropEntries(reg, o, attrs, n)[2 * j] == PropCells(ValueOf(reg, o, attrs[j]))[0]
      && PropEntries(reg, o, attrs, n)[2 * j + 1] == PropCells(ValueOf(reg, o, attrs[j]))[1]
  {
    hide ValueOf, PropCells;
    if n > 0 {
      PropEntriesAt(reg, o, attrs, n - 1);
    }
  }

  lemma {:induction false} TextCellsAt(text: seq<u8>, n: nat)
    ensures |TextCells(text, n)| == n
    ensures forall i :: 0 <= i < n ==> TextCells(text, n)[i] == Word(TextWord(text, 4 * i))
  {
    hide TextWord;
    if n > 0 {
      TextCellsAt(text, n - 1);
    }
  }

  // ----- and what they read as

  ghost predicate HoldsText(rom: seq<u32>, p: nat, text: seq<u8>) {
    && p + 1 + |text| / 4 < |rom|
    && forall i :: 0 <= i <= |text| / 4 ==> rom[p + 1 + i] == TextWord(text, 4 * i)
  }

  lemma SymbolReads(reg: Registry, s: Sym)
    requires s in reg.symbols && |Rom(reg)| < U32_SIZE
    ensures HoldsText(Rom(reg), Addr(reg, SymRef(s)), Text(reg, s))
  {
    hide Blocks, Rom, Addr, TextCells, TextWord, Low32, AllLinks, FirstObject, ObjList, TypeBlock, Own, AttrBlock, ObjectBlock, TypeList;
    BlockKinds(reg);
    var i :| 0 <= i < |reg.symbols| && reg.symbols[i] == s;
    var b := SymbolBlock(reg, s);
    assert Blocks(reg)[FirstSymbol(reg) + i] == b;
    RefPayload(reg, b);
    var text, n, p := Text(reg, s), |Text(reg, s)| / 4 + 1, Addr(reg, SymRef(s));
    TextCellsAt(text, n);
    forall k | 0 <= k < n
      ensures Rom(reg)[p + 1 + k] == TextWord(text, 4 * k)
    {
      assert b.payload[1 + k] == TextCells(text, n)[k];
    }
  }

  lemma AttrTableReads(reg: Registry, i: nat)
    requires i < |TypeList(reg)| && Attrs(reg, TypeList(reg)[i]) != [] && |Rom(reg)| < U32_SIZE
    ensures var attrs, p := Attrs(reg, TypeList(reg)[i]), Addr(reg, AttrRef(TypeList(reg)[i]));
      && p + 2 + |attrs| < |Rom(reg)| && Rom(reg)[p] == |attrs|
      && forall j :: 0 <= j < |attrs| ==> Rom(reg)[p + 2 + j] == Addr(reg, SymRef(attrs[j]))
  {
    hide Blocks, Rom, SymLinks, Low32, AllLinks, FirstObject, FirstSymbol, ObjList, TypeBlock, Own, ObjectBlock, SymbolBlock, TypeList, Attrs, TypeIndex;
    BlockKinds(reg);
    var t := TypeList(reg)[i];
    var attrs := Attrs(reg, t);
    var b := AttrBlock(reg, t);
    RefPayload(reg, b);
    SymLinksAt(attrs, |attrs|);
    Low32Small(|attrs|);
    var p := Addr(reg, AttrRef(t));
    assert Rom(reg)[p + 0] == Resolve(b.payload[0], AllLinks(reg));
    forall j | 0 <= j < |attrs|
      ensures Rom(reg)[p + 2 + j] == Addr(reg, SymRef(attrs[j]))
    {
      assert b.payload[2 + j] == SymLinks(attrs, |attrs|)[j];
    }
  }

  lemma TypeTableFirst(reg: Registry)
    ensures PayloadAt(reg, 3, TypeBlock(reg).payload)
  {
    hide Blocks, TypeBlock, PayloadAt, Own;
    BlockKinds(reg);
    BlockPayload(reg, 0);
    assert StartOf(Blocks(reg), 0) == 1;
  }

  lemma TypeTableReads(reg: Registry)
    requires |Rom(reg)| < U32_SIZE
    ensures var types := TypeList(reg);
      && 4 + 2 * |types| < |Rom(reg)| && Rom(reg)[3] == |types|
      && forall i :: 0 <= i < |types| ==>
        && Rom(reg)[3 + (1 + 2 * i)] == Addr(reg, SymRef(types[i]))
        && Rom(reg)[3 + (1 + 2 * i + 1)] == if Attrs(reg, types[i]) == [] then 0 else Addr(reg, AttrRef(types[i]))
  {
    hide Blocks, Rom, TypeEntries, Low32, AllLinks, FirstObject, ObjList, Own, AttrBlock, ObjectBlock, SymbolBlock, TypeList, Attrs;
    TypeTableFirst(reg);
    var types, b := TypeList(reg), TypeBlock(reg);
    TypeEntriesAt(reg, types, |types|);
    Low32Small(|types|);
    assert Rom(reg)[3 + 0] == Resolve(b.payload[0], AllLinks(reg));
    forall i | 0 <= i < |types|
      ensures Rom(reg)[3 + (1 + 2 * i)] == Addr(reg, SymRef(types[i]))
      ensures Rom(reg)[3 + (1 + 2 * i + 1)] == if Attrs(reg, types[i]) == [] then 0 else Addr(reg, AttrRef(types[i]))
    {
      assert b.payload[1 + 2 * i] == TypeEntries(reg, types, |types|)[2 * i];
      assert b.payload[1 + 2 * i + 1] == TypeEntries(reg, types, |types|)[2 * i + 1];
    }
  }

  // The word a property value is stored as.
  ghost function ValueWord(reg: Registry, e: Option<Entity>): u32 {
    match e
    case None => 0
    case Some(Void) => 0
    case Some(SymbolOf(s)) => Addr(reg, SymRef(s))
    case Some(ObjectOf(o)) => Addr(reg, ObjRef(o))
    case Some(Uint(v)) => v
  }

  // The block of object o lies at p.
  ghost predicate ObjectAt(reg: Registry, p: nat, o: Obj) {
    var attrs := Attrs(reg, ObjType(reg, o));
    && p + 3 + 2 * |attrs| < |Rom(reg)|
    && Rom(reg)[p + 2] == Low32(TypeIndex(reg, ObjType(reg, o)))
    && forall j :: 0 <= j < |attrs| ==> Rom(reg)[p + 2 + (1 + 2 * j + 1)] == ValueWord(reg, ValueOf(reg, o, attrs[j]))
  }

  lemma ObjectReads(reg: Registry, k: nat)
    requires FirstObject(reg) <= k < FirstObject(reg) + |ObjList(reg)| && k < |Blocks(reg)|
    ensures ObjectAt(reg, StartOf(Blocks(reg), k), ObjList(reg)[k - FirstObject(reg)])
  {
    hide Blocks, Rom, PropEntries, Low32, AllLinks, FirstObject, ObjList, Own, AttrBlock, TypeBlock, SymbolBlock, TypeList, Attrs, ObjType, TypeIndex, ValueOf, StartOf;
    BlockKinds(reg);
    BlockPayload(reg, k);
    var o := ObjList(reg)[k - FirstObject(reg)];
    var attrs, b := Attrs(reg, ObjType(reg, o)), ObjectBlock(reg, o);
    PropEntriesAt(reg, o, attrs, |attrs|);
    var p := StartOf(Blocks(reg), k);
    assert Rom(reg)[p + 2 + 0] == Resolve(b.payload[0], AllLinks(reg));
    forall j | 0 <= j < |attrs|
      ensures Rom(reg)[p + 2 + (1 + 2 * j + 1)] == ValueWord(reg, ValueOf(reg, o, attrs[j]))
    {
      assert b.payload[1 + 2 * j + 1] == PropEntries(reg, o, attrs, |attrs|)[2 * j + 1];
    }
  }

  // ----- names of types and attributes are symbols

  ghost predicate Symbols(reg: Registry, syms: seq<Sym>) {
    forall i :: 0 <= i < |syms| ==> syms[i] in reg.symbols
  }

  lemma {:induction false} LabelsAreSymbols(reg: Registry, props: seq<(Sym, Entity)>, n: nat)
    requires n <= |props| && forall k :: 0 <= k < |props| ==> props[k].0 in reg.symbols
    ensures forall a :: a in Labels(props, n) ==> a in reg.symbols
  {
    if n > 0 {
      LabelsAreSymbols(reg, props, n - 1);
    }
  }

  lemma {:induction false} LabelsOfAreSymbols(reg: Registry, objs: seq<Obj>, n: nat, t: Sym)
    requires WellFormed(reg) && n <= |objs|
    ensures forall a :: a in LabelsOf(reg, objs, n, t) ==> a in reg.symbols
  {
    hide Labels;
    if n > 0 {
      LabelsOfAreSymbols(reg, objs, n - 1, t);
      LabelsAreSymbols(reg, Props(reg, objs[n - 1]), |Props(reg, objs[n - 1])|);
    }
  }

  lemma AttrsAreSymbols(reg: Registry, t: Sym)
    requires WellFormed(reg)
    ensures Symbols(reg, Attrs(reg, t))
  {
    hide Ordered, LabelsOf;
    OrderedKeys(AttrSet(reg, t));
    LabelsOfAreSymbols(reg, Ordered(reg.props.Keys), |Ordered(reg.props.Keys)|, t);
    assert forall i :: 0 <= i < |Attrs(reg, t)| ==> Attrs(reg, t)[i] in Attrs(reg, t);
  }

  lemma TypesAreSymbols(reg: Registry)
    requires WellFormed(reg)
    ensures Symbols(reg, TypeList(reg))
    ensures forall i, j :: 0 <= i < j < |TypeList(reg)| ==> TypeList(reg)[i] != TypeList(reg)[j]
  {
    hide Ordered;
    OrderedKeys(set o | o in reg.objects :: reg.objects[o]);
    assert forall i :: 0 <= i < |TypeList(reg)| ==> TypeList(reg)[i] in TypeList(reg);
  }
}
