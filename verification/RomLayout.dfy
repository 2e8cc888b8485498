// The configuration ROM as a chain of blocks, with its references still symbolic: what
// sim/config.cpp lays out and programs/mtconf.c decodes.
module RomLayout {
  import opened Bits
  import opened Options

  const CONF_MAGIC: u32 := 0x53474d23
  const TAG_TYPETABLE: u32 := 1
  const TAG_ATTRTABLE: u32 := 2
  const TAG_RAWCONFIG: u32 := 3
  const TAG_OBJECT: u32 := 4
  const TAG_SYMBOL: u32 := 5

  // Interned strings and simulation objects are known by their addresses, which also order them.
  type Sym = nat
  type Obj = nat

  datatype Entity = Void | SymbolOf(sym: Sym) | ObjectOf(obj: Obj) | Uint(value: u32)

  // The component model registry: m_objects, m_objprops and the memoized strings in set order,
  // and the raw configuration after its strings were memoized.
  datatype Registry = Registry(
    objects: map<Obj, Sym>,
    props: map<Obj, seq<(Sym, Entity)>>,
    symbols: seq<Sym>,
    text: map<Sym, seq<u8>>,
    raw: seq<(Sym, Sym)>)

  // The keys of a std::map or std::set in iteration order.
  function Ordered(s: set<nat>): seq<nat>
    decreases |s|
  {
    if s == {} then [] else [Least(s)] + Ordered(s - {Least(s)})
  }

  lemma {:induction false} OrderedKeys(s: set<nat>)
    ensures forall x :: x in Ordered(s) <==> x in s
    ensures forall i, j :: 0 <= i < j < |Ordered(s)| ==> Ordered(s)[i] < Ordered(s)[j]
    decreases |s|
  {
    if s != {} {
      var m := Least(s);
      OrderedKeys(s - {m});
      LeastFirst(s, m, Ordered(s - {m}));
    }
  }

  lemma LeastFirst(s: set<nat>, m: nat, rest: seq<nat>)
    requires IsLeast(s, m) && forall x :: x in rest <==> x in s - {m}
    requires forall i, j :: 0 <= i < j < |rest| ==> rest[i] < rest[j]
    ensures forall x :: x in [m] + rest <==> x in s
    ensures forall i, j :: 0 <= i < j < |[m] + rest| ==> ([m] + rest)[i] < ([m] + rest)[j]
  {
    assert forall i :: 0 <= i < |rest| ==> rest[i] in s - {m};
  }

  ghost predicate IsLeast(s: set<nat>, m: nat) {
    m in s && forall x :: x in s ==> m <= x
  }

  function Least(s: set<nat>): (m: nat)
    requires s != {}
    ensures IsLeast(s, m)
  {
    LeastExists(s);
    assert exists m :: m in s && forall x :: x in s ==> m <= x by {
      var l :| IsLeast(s, l);
    }
    var m :| m in s && forall x :: x in s ==> m <= x;
    m
  }

  lemma {:induction false} LeastExists(s: set<nat>)
    requires s != {}
    ensures exists m :: IsLeast(s, m)
    decreases |s|
  {
    var m :| m in s;
    if !IsLeast(s, m) {
      var y :| y in s && y < m;
      var rest := s - {m};
      assert y in rest;
      LeastExists(rest);
      var l :| IsLeast(rest, l);
      LeastOfRest(s, m, y, l);
    }
  }

  lemma LeastOfRest(s: set<nat>, m: nat, y: nat, l: nat)
    requires IsLeast(s - {m}, l) && y in s && y < m
    ensures IsLeast(s, l)
  {
    forall x | x in s
      ensures l <= x
    {
      assert x == m || x in s - {m};
      assert y in s - {m};
    }
  }

  // The first position of x, or the length if there is none, as std::find would give it.
  function IndexOf(s: seq<nat>, x: nat, from: nat): (i: nat)
    requires from <= |s|
    ensures from <= i <= |s| && (i < |s| ==> s[i] == x)
    ensures forall k :: from <= k < i ==> s[k] != x
    decreases |s| - from
  {
    if from == |s| || s[from] == x then from else IndexOf(s, x, from + 1)
  }

  function ObjType(reg: Registry, o: Obj): Sym {
    if o in reg.objects then reg.objects[o] else 0
  }

  function Props(reg: Registry, o: Obj): seq<(Sym, Entity)> {
    if o in reg.props then reg.props[o] else []
  }

  function Text(reg: Registry, s: Sym): seq<u8> {
    if s in reg.text then reg.text[s] else []
  }

  function TypeList(reg: Registry): seq<Sym> {
    Ordered(set o | o in reg.objects :: reg.objects[o])
  }

  function TypeIndex(reg: Registry, t: Sym): nat {
    IndexOf(TypeList(reg), t, 0)
  }

  // The labels among the first n properties.
  function Labels(props: seq<(Sym, Entity)>, n: nat): set<Sym>
    requires n <= |props|
  {
    if n == 0 then {} else Labels(props, n - 1) + {props[n - 1].0}
  }

  function LabelsOf(reg: Registry, objs: seq<Obj>, n: nat, t: Sym): set<Sym>
    requires n <= |objs|
  {
    if n == 0 then {}
    else
      var props := Props(reg, objs[n - 1]);
      LabelsOf(reg, objs, n - 1, t) + (if ObjType(reg, objs[n - 1]) == t then Labels(props, |props|) else {})
  }

  // The labels used by any object of a type.
  function AttrSet(reg: Registry, t: Sym): set<Sym> {
    var objs := Ordered(reg.props.Keys);
    LabelsOf(reg, objs, |objs|, t)
  }

  function Attrs(reg: Registry, t: Sym): seq<Sym> {
    Ordered(AttrSet(reg, t))
  }

  // The value last given to a label by the first n properties.
  function LastValue(props: seq<(Sym, Entity)>, n: nat, a: Sym): Option<Entity>
    requires n <= |props|
  {
    if n == 0 then None
    else if props[n - 1].0 == a then Some(props[n - 1].1)
    else LastValue(props, n - 1, a)
  }

  function ValueOf(reg: Registry, o: Obj, a: Sym): Option<Entity> {
    LastValue(Props(reg, o), |Props(reg, o)|, a)
  }

  // It is the value of the last property with that label, and None without one.
  lemma {:induction false} LastValueMeans(props: seq<(Sym, Entity)>, n: nat, a: Sym)
    requires n <= |props|
    ensures match LastValue(props, n, a)
      case None => forall k :: 0 <= k < n ==> props[k].0 != a
      case Some(e) => exists k :: 0 <= k < n && props[k] == (a, e) && forall m :: k < m < n ==> props[m].0 != a
  {
    if n > 0 {
      LastValueMeans(props, n - 1, a);
    }
  }

  // So it is for a registered object.
  lemma ValueOfMeans(reg: Registry, o: Obj, a: Sym)
    ensures match ValueOf(reg, o, a)
      case None => o in reg.props ==> forall k :: 0 <= k < |reg.props[o]| ==> reg.props[o][k].0 != a
      case Some(e) =>
        && o in reg.props
        && exists k :: 0 <= k < |reg.props[o]| && reg.props[o][k] == (a, e)
                       && forall m :: k < m < |reg.props[o]| ==> reg.props[o][m].0 != a
  {
    hide LastValue;
    LastValueMeans(Props(reg, o), |Props(reg, o)|, a);
  }

  lemma {:induction false} LabelsMean(props: seq<(Sym, Entity)>, n: nat, a: Sym)
    requires n <= |props|
    ensures a in Labels(props, n) <==> exists k :: 0 <= k < n && props[k].0 == a
  {
    if n > 0 {
      LabelsMean(props, n - 1, a);
    }
  }

  lemma {:induction false} LabelsOfMean(reg: Registry, objs: seq<Obj>, n: nat, t: Sym, a: Sym)
    requires n <= |objs|
    ensures a in LabelsOf(reg, objs, n, t) <==>
      exists i :: 0 <= i < n && ObjType(reg, objs[i]) == t && ValueOf(reg, objs[i], a) != None
  {
    if n > 0 {
      hide Labels, LastValue;
      var o := objs[n - 1];
      LabelsOfMean(reg, objs, n - 1, t, a);
      LabelsMean(Props(reg, o), |Props(reg, o)|, a);
      LastValueMeans(Props(reg, o), |Props(reg, o)|, a);
    }
  }

  // The attributes of a type are the labels that some object of the type has a value for.
  lemma AttrsMean(reg: Registry, t: Sym, a: Sym)
    ensures a in Attrs(reg, t) <==> exists o :: o in reg.props && ObjType(reg, o) == t && ValueOf(reg, o, a) != None
  {
    hide Ordered, LabelsOf, ValueOf, ObjType;
    var objs := Ordered(reg.props.Keys);
    OrderedKeys(AttrSet(reg, t));
    OrderedKeys(reg.props.Keys);
    LabelsOfMean(reg, objs, |objs|, t, a);
    if o :| o in reg.props && ObjType(reg, o) == t && ValueOf(reg, o, a) != None {
      assert o in objs;
    }
  }

  // What a reference points at: the block of a symbol, of a type's attribute table, of an object.
  datatype Ref = SymRef(sym: Sym) | AttrRef(typ: Sym) | ObjRef(obj: Obj)
  datatype Cell = Word(w: u32) | Link(ref: Ref)

  function Low32(x: nat): u32 {
    x % U32_SIZE
  }

  datatype Block = Block(tag: u32, payload: seq<Cell>, defines: Option<Ref>)

  function TypeEntries(reg: Registry, types: seq<Sym>, n: nat): seq<Cell>
    requires n <= |types|
  {
    if n == 0 then [] else TypeEntries(reg, types, n - 1) + TypeEntry(reg, types[n - 1])
  }

  function TypeEntry(reg: Registry, t: Sym): seq<Cell> {
    [Link(SymRef(t)), if Attrs(reg, t) == [] then Word(0) else Link(AttrRef(t))]
  }

  function SymLinks(syms: seq<Sym>, n: nat): seq<Cell>
    requires n <= |syms|
  {
    if n == 0 then [] else SymLinks(syms, n - 1) + [Link(SymRef(syms[n - 1]))]
  }

  function PropCells(e: Option<Entity>): (cells: seq<Cell>)
    ensures |cells| == 2
  {
    match e
    case None => [Word(0), Word(0)]
    case Some(Void) => [Word(1), Word(0)]
    case Some(SymbolOf(s)) => [Word(2), Link(SymRef(s))]
    case Some(ObjectOf(o)) => [Word(3), Link(ObjRef(o))]
    case Some(Uint(v)) => [Word(4), Word(v)]
  }

  function PropEntries(reg: Registry, o: Obj, attrs: seq<Sym>, n: nat): seq<Cell>
    requires n <= |attrs|
  {
    if n == 0 then [] else PropEntries(reg, o, attrs, n - 1) + PropCells(ValueOf(reg, o, attrs[n - 1]))
  }

  function RawEntries(raw: seq<(Sym, Sym)>, n: nat): seq<Cell>
    requires n <= |raw|
  {
    if n == 0 then [] else RawEntries(raw, n - 1) + [Link(SymRef(raw[n - 1].0)), Link(SymRef(raw[n - 1].1))]
  }

  // Four characters to a word, low byte first, with at least one terminating zero. A char is
  // signed, so one above 127 would spill into the bytes above it.
  function CharAt(text: seq<u8>, k: nat): u32 {
    if k < |text| then (if text[k] < 128 then text[k] else U32_SIZE - 256 + text[k]) else 0
  }

  function TextWord(text: seq<u8>, k: nat): u32 {
    Low32(Or(Or(Or(CharAt(text, k), Shl(CharAt(text, k + 1), 8) % U32_SIZE),
                Shl(CharAt(text, k + 2), 16) % U32_SIZE), Shl(CharAt(text, k + 3), 24) % U32_SIZE))
  }

  function TextCells(text: seq<u8>, n: nat): seq<Cell> {
    if n == 0 then [] else TextCells(text, n - 1) + [Word(TextWord(text, 4 * (n - 1)))]
  }

  function TypeBlock(reg: Registry): Block {
    Block(TAG_TYPETABLE, [Word(Low32(|TypeList(reg)|))] + TypeEntries(reg, TypeList(reg), |TypeList(reg)|), None)
  }

  function AttrBlock(reg: Registry, t: Sym): Block {
    Block(TAG_ATTRTABLE, [Word(Low32(|Attrs(reg, t)|)), Word(Low32(TypeIndex(reg, t)))] + SymLinks(Attrs(reg, t), |Attrs(reg, t)|),
          Some(AttrRef(t)))
  }

  function ObjectBlock(reg: Registry, o: Obj): Block {
    var t := ObjType(reg, o);
    Block(TAG_OBJECT, [Word(Low32(TypeIndex(reg, t)))] + PropEntries(reg, o, Attrs(reg, t), |Attrs(reg, t)|), Some(ObjRef(o)))
  }

  function RawBlock(reg: Registry): Block {
    Block(TAG_RAWCONFIG, [Word(Low32(|reg.raw|))] + RawEntries(reg.raw, |reg.raw|), None)
  }

  function SymbolBlock(reg: Registry, s: Sym): Block {
    Block(TAG_SYMBOL, [Word(Low32(|Text(reg, s)|))] + TextCells(Text(reg, s), |Text(reg, s)| / 4 + 1), Some(SymRef(s)))
  }

  // Every string has been memoized and every object registered before it is referred to.
  ghost predicate WellFormed(reg: Registry) {
    && reg.props.Keys <= reg.objects.Keys
    && (forall s :: s in reg.symbols ==> s in reg.text)
    && (forall i, j :: 0 <= i < j < |reg.symbols| ==> reg.symbols[i] != reg.symbols[j])
    && (forall o :: o in reg.objects ==> reg.objects[o] in reg.symbols)
    && (forall o, k :: o in reg.props && 0 <= k < |reg.props[o]| ==>
          && reg.props[o][k].0 in reg.symbols
          && (reg.props[o][k].1.SymbolOf? ==> reg.props[o][k].1.sym in reg.symbols)
          && (reg.props[o][k].1.ObjectOf? ==> reg.props[o][k].1.obj in reg.objects))
    && (forall k :: 0 <= k < |reg.raw| ==> reg.raw[k].0 in reg.symbols && reg.raw[k].1 in reg.symbols)
  }

  function AttrBlocks(reg: Registry, types: seq<Sym>, n: nat): seq<Block>
    requires n <= |types|
  {
    if n == 0 then []
    else AttrBlocks(reg, types, n - 1) + (if Attrs(reg, types[n - 1]) == [] then [] else [AttrBlock(reg, types[n - 1])])
  }

  function ObjectBlocks(reg: Registry, objs: seq<Obj>, n: nat): seq<Block>
    requires n <= |objs|
  {
    if n == 0 then [] else ObjectBlocks(reg, objs, n - 1) + [ObjectBlock(reg, objs[n - 1])]
  }

  function SymbolBlocks(reg: Registry, syms: seq<Sym>, n: nat): seq<Block>
    requires n <= |syms|
  {
    if n == 0 then [] else SymbolBlocks(reg, syms, n - 1) + [SymbolBlock(reg, syms[n - 1])]
  }

  function ObjList(reg: Registry): seq<Obj> {
    Ordered(reg.objects.Keys)
  }

  function Blocks(reg: Registry): seq<Block> {
    [TypeBlock(reg)] + AttrBlocks(reg, TypeList(reg), |TypeList(reg)|) + ObjectBlocks(reg, ObjList(reg), |ObjList(reg)|)
    + [RawBlock(reg)] + SymbolBlocks(reg, reg.symbols, |reg.symbols|)
  }

  // A block in place: its tag, the offset of the next block, its payload.
  function Placed(b: Block, at: nat): seq<Cell> {
    [Word(b.tag), Word(Low32(at + 2 + |b.payload|))] + b.payload
  }

  // The first n blocks; the chain starts at offset 1, after the magic word.
  function Chain(bs: seq<Block>, n: nat): seq<Cell>
    requires n <= |bs|
  {
    if n == 0 then [] else Chain(bs, n - 1) + Placed(bs[n - 1], 1 + |Chain(bs, n - 1)|)
  }

  function StartOf(bs: seq<Block>, n: nat): nat
    requires n <= |bs|
  {
    1 + |Chain(bs, n)|
  }

  // Where each reference leads: just past the header of the block that defines it.
  function Links(bs: seq<Block>, n: nat): map<Ref, nat>
    requires n <= |bs|
  {
    if n == 0 then map[] else Defined(Links(bs, n - 1), bs[n - 1], StartOf(bs, n - 1))
  }

  function Defined(links: map<Ref, nat>, b: Block, at: nat): map<Ref, nat> {
    if b.defines.None? then links else links[b.defines.value := at + 2]
  }

  function Resolve(c: Cell, links: map<Ref, nat>): u32 {
    match c
    case Word(w) => w
    case Link(r) => if r in links then Low32(links[r]) else 0
  }

  function Resolved(cells: seq<Cell>, links: map<Ref, nat>): (words: seq<u32>)
    ensures |words| == |cells|
  {
    seq(|cells|, i requires 0 <= i < |cells| => Resolve(cells[i], links))
  }

  function RomCells(bs: seq<Block>): seq<Cell> {
    [Word(CONF_MAGIC)] + Chain(bs, |bs|) + [Word(0)]
  }

  function Rom(reg: Registry): seq<u32> {
    Resolved(RomCells(Blocks(reg)), Links(Blocks(reg), |Blocks(reg)|))
  }

  lemma ChainStart(bs: seq<Block>)
    ensures Chain(bs, 0) == [] && Links(bs, 0) == map[]
  {
  }

  lemma ChainStep(bs: seq<Block>, k: nat)
    requires k < |bs|
    ensures Chain(bs, k + 1) == Chain(bs, k) + Placed(bs[k], StartOf(bs, k))
    ensures Links(bs, k + 1) == Defined(Links(bs, k), bs[k], StartOf(bs, k))
  {
    hide Placed, Defined;
  }

  lemma PlacedIs(b: Block, at: nat)
    ensures var p := Placed(b, at);
      && |p| == 2 + |b.payload| && p[0] == Word(b.tag) && p[1] == Word(Low32(at + 2 + |b.payload|))
      && forall i :: 0 <= i < |b.payload| ==> p[2 + i] == b.payload[i]
  {
    hide Low32;
  }

  // Blocks already in place are not disturbed by the ones after them.
  lemma {:induction false} ChainPrefix(bs: seq<Block>, bs': seq<Block>, n: nat)
    requires n <= |bs| <= |bs'| && forall k :: 0 <= k < n ==> bs'[k] == bs[k]
    ensures Chain(bs', n) == Chain(bs, n) && Links(bs', n) == Links(bs, n)
  {
    hide Chain, Links, Placed, Defined;
    if n == 0 {
      ChainStart(bs);
      ChainStart(bs');
    } else {
      ChainStep(bs, n - 1);
      ChainStep(bs', n - 1);
      ChainPrefix(bs, bs', n - 1);
    }
  }
}
