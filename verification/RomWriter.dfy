// sim/config.cpp: the configuration ROM is emitted in one pass, with zeros where a reference
// will go, and the references are patched in at the end.
module RomWriter {
  import opened Bits
  import opened RomLayout
  import opened Options

  lemma ChainSnoc(bs: seq<Block>, b: Block)
    ensures Chain(bs + [b], |bs| + 1) == Chain(bs, |bs|) + Placed(b, StartOf(bs, |bs|))
    ensures Links(bs + [b], |bs| + 1) == Defined(Links(bs, |bs|), b, StartOf(bs, |bs|))
  {
    hide Chain, Links, Placed, Defined;
    ChainStep(bs + [b], |bs|);
    ChainPrefix(bs, bs + [b], |bs|);
  }

  ghost predicate Positions(index: map<Sym, nat>, attrs: seq<Sym>) {
    && (forall a :: a in index <==> a in attrs)
    && (forall i :: 0 <= i < |attrs| ==> attrs[i] in index && index[attrs[i]] == i)
  }

  ghost function Collected(collect: map<Sym, set<Sym>>, t: Sym): set<Sym> {
    if t in collect then collect[t] else {}
  }

  ghost predicate IsType(reg: Registry, t: Sym) {
    exists o :: o in reg.objects && reg.objects[o] == t
  }

  method CollectLabels(collect: map<Sym, set<Sym>>, t0: Sym, props: seq<(Sym, Entity)>) returns (r: map<Sym, set<Sym>>)
    ensures forall t :: Collected(r, t) == Collected(collect, t) + (if t == t0 then Labels(props, |props|) else {})
    ensures r.Keys <= collect.Keys + {t0}
  {
    r := collect;
    for j := 0 to |props|
      invariant forall t :: Collected(r, t) == Collected(collect, t) + (if t == t0 then Labels(props, j) else {})
      invariant r.Keys <= collect.Keys + {t0}
    {
      r := r[t0 := (if t0 in r then r[t0] else {}) + {props[j].0}];
    }
  }

  method Collect(reg: Registry) returns (collect: map<Sym, set<Sym>>)
    requires reg.props.Keys <= reg.objects.Keys
    ensures forall t :: Collected(collect, t) == AttrSet(reg, t)
    ensures forall t :: t in collect ==> IsType(reg, t)
  {
    collect := map[];
    var objs := Ordered(reg.props.Keys);
    OrderedKeys(reg.props.Keys);
    for i := 0 to |objs|
      invariant forall t :: t in collect ==> IsType(reg, t)
      invariant forall t :: Collected(collect, t) == LabelsOf(reg, objs, i, t)
    {
      assert IsType(reg, reg.objects[objs[i]]);
      collect := CollectLabels(collect, ObjType(reg, objs[i]), Props(reg, objs[i]));
    }
  }

  method EmptyTypes(reg: Registry) returns (types: map<Sym, seq<Sym>>)
    ensures forall t :: t in types <==> IsType(reg, t)
    ensures forall t :: t in types ==> types[t] == []
  {
    types := map[];
    var objs := Ordered(reg.objects.Keys);
    OrderedKeys(reg.objects.Keys);
    for i := 0 to |objs|
      invariant forall t :: t in types ==> types[t] == [] && IsType(reg, t)
      invariant forall k :: 0 <= k < i ==> reg.objects[objs[k]] in types
    {
      types := types[reg.objects[objs[i]] := []];
    }
    forall t | IsType(reg, t)
      ensures t in types
    {
      var o :| o in reg.objects && reg.objects[o] == t;
      assert o in objs;
    }
  }

  method IndexAttrs(attrs: seq<Sym>) returns (index: map<Sym, nat>)
    requires forall i, j :: 0 <= i < j < |attrs| ==> attrs[i] < attrs[j]
    ensures Positions(index, attrs)
  {
    index := map[];
    for j := 0 to |attrs|
      invariant Positions(index, attrs[..j])
    {
      index := index[attrs[j] := j];
      assert attrs[..j + 1] == attrs[..j] + [attrs[j]];
    }
    assert attrs[..|attrs|] == attrs;
  }

  lemma TypeListTypes(reg: Registry)
    ensures forall t :: t in TypeList(reg) <==> IsType(reg, t)
  {
    OrderedKeys(set o | o in reg.objects :: reg.objects[o]);
  }

  method IndexLabels(labels: set<Sym>) returns (attrs: seq<Sym>, index: map<Sym, nat>)
    ensures attrs == Ordered(labels) && Positions(index, attrs)
  {
    attrs := Ordered(labels);
    OrderedKeys(labels);
    index := IndexAttrs(attrs);
  }

  lemma NothingCollected(collect: map<Sym, set<Sym>>, t: Sym)
    requires t !in collect
    ensures Ordered(Collected(collect, t)) == [] && Positions(map[], [])
  {
  }

  ghost predicate Filled(collect: map<Sym, set<Sym>>, types: map<Sym, seq<Sym>>, typeAttrs: map<Sym, map<Sym, nat>>, t: Sym) {
    t in types && t in typeAttrs && types[t] == Ordered(Collected(collect, t)) && Positions(typeAttrs[t], types[t])
  }

  method FillAttrs(none: map<Sym, seq<Sym>>, collect: map<Sym, set<Sym>>)
    returns (types: map<Sym, seq<Sym>>, typeAttrs: map<Sym, map<Sym, nat>>)
    requires collect.Keys <= none.Keys && forall t :: t in none ==> none[t] == []
    ensures types.Keys == typeAttrs.Keys == none.Keys
    ensures forall t :: t in types ==> Filled(collect, types, typeAttrs, t)
  {
    hide Ordered, Positions;
    types := none;
    typeAttrs := map t | t in types :: map[];
    var todo := collect.Keys;
    forall t | t in types && t !in todo
      ensures Filled(collect, types, typeAttrs, t)
    {
      NothingCollected(collect, t);
    }
    while todo != {}
      invariant todo <= collect.Keys
      invariant types.Keys == typeAttrs.Keys == none.Keys
      invariant forall t :: t in types && t !in todo ==> Filled(collect, types, typeAttrs, t)
      decreases |todo|
    {
      var key := Least(todo);
      var attrs, index := IndexLabels(collect[key]);
      types, typeAttrs := types[key := attrs], typeAttrs[key := index];
      todo := todo - {key};
    }
  }

  // m_objects and m_objprops regrouped: the attributes of each type, in order, and their positions.
  method CollectPropertiesByType(reg: Registry) returns (types: map<Sym, seq<Sym>>, typeAttrs: map<Sym, map<Sym, nat>>)
    requires reg.props.Keys <= reg.objects.Keys
    ensures types.Keys == typeAttrs.Keys
    ensures forall t :: t in types <==> t in TypeList(reg)
    ensures forall t :: t in types ==> types[t] == Attrs(reg, t) && Positions(typeAttrs[t], types[t])
  {
    hide AttrSet, Ordered, Positions, TypeList;
    var none := EmptyTypes(reg);
    var collect := Collect(reg);
    TypeListTypes(reg);
    types, typeAttrs := FillAttrs(none, collect);
    forall t | t in types
      ensures types[t] == Attrs(reg, t) && Positions(typeAttrs[t], types[t])
    {
      assert Filled(collect, types, typeAttrs, t);
      assert Collected(collect, t) == AttrSet(reg, t);
    }
  }

  lemma {:induction false} LabelIsListed(props: seq<(Sym, Entity)>, n: nat, k: nat)
    requires k < n <= |props|
    ensures props[k].0 in Labels(props, n)
  {
    if k < n - 1 {
      LabelIsListed(props, n - 1, k);
    }
  }

  lemma {:induction false} LabelsAreListed(reg: Registry, objs: seq<Obj>, n: nat, m: nat)
    requires m < n <= |objs|
    ensures Labels(Props(reg, objs[m]), |Props(reg, objs[m])|) <= LabelsOf(reg, objs, n, ObjType(reg, objs[m]))
  {
    if m < n - 1 {
      LabelsAreListed(reg, objs, n - 1, m);
    }
  }

  // Every label of an object is an attribute of its type.
  lemma LabelIsAttr(reg: Registry, o: Obj, k: nat)
    requires k < |Props(reg, o)|
    ensures Props(reg, o)[k].0 in Attrs(reg, ObjType(reg, o))
  {
    hide Labels, LabelsOf, Ordered;
    var objs := Ordered(reg.props.Keys);
    OrderedKeys(reg.props.Keys);
    assert o in objs;
    var m :| 0 <= m < |objs| && objs[m] == o;
    LabelIsListed(Props(reg, o), |Props(reg, o)|, k);
    LabelsAreListed(reg, objs, |objs|, m);
    OrderedKeys(AttrSet(reg, ObjType(reg, o)));
  }

  // The value slots of an object in its type's attribute order; a later property overwrites.
  method FillSlots(props: seq<(Sym, Entity)>, attrs: seq<Sym>, index: map<Sym, nat>) returns (slots: seq<Option<Entity>>)
    requires Positions(index, attrs)
    requires forall k :: 0 <= k < |props| ==> props[k].0 in index
    ensures |slots| == |attrs|
    ensures forall i :: 0 <= i < |attrs| ==> slots[i] == LastValue(props, |props|, attrs[i])
  {
    slots := seq(|attrs|, _ => None);
    for n := 0 to |props|
      invariant |slots| == |attrs|
      invariant forall i :: 0 <= i < |attrs| ==> slots[i] == LastValue(props, n, attrs[i])
    {
      var at := index[props[n].0];
      assert props[n].0 in attrs;
      slots := slots[at := Some(props[n].1)];
    }
  }

  class Emitter {
    var db: seq<u32>
    var backrefs: map<Ref, seq<nat>>
    var table: map<Ref, nat>
    ghost var cells: seq<Cell>

    // The image holds every word that is known and a zero for every reference; the references
    // and the places they were left at are listed, each under its target.
    ghost predicate Valid()
      reads this
    {
      && |db| == |cells|
      && (forall k :: 0 <= k < |cells| && cells[k].Word? ==> db[k] == cells[k].w)
      && (forall k :: 0 <= k < |cells| && cells[k].Link? ==> Listed(cells[k].ref, k))
      && (forall r, k: nat :: Listed(r, k) ==> k < |cells| && cells[k] == Link(r))
    }

    ghost predicate Listed(r: Ref, k: nat)
      reads this`backrefs
    {
      r in backrefs && k in backrefs[r]
    }

    constructor ()
      ensures Valid() && cells == [] && table == map[]
    {
      db, cells := [], [];
      backrefs, table := map[], map[];
    }

    method PutWord(w: u32)
      requires Valid()
      modifies this`db, this`cells
      ensures Valid() && cells == old(cells) + [Word(w)]
    {
      db := db + [w];
      cells := cells + [Word(w)];
    }

    method PutLink(r: Ref)
      requires Valid()
      modifies this`db, this`cells, this`backrefs
      ensures Valid() && cells == old(cells) + [Link(r)]
    {
      var others := if r in backrefs then backrefs[r] else [];
      backrefs := backrefs[r := others + [|db|]];
      db := db + [0];
      cells := cells + [Link(r)];
      assert Listed(r, |old(cells)|) by {
        assert backrefs[r][|others|] == |old(cells)|;
      }
      forall k: nat | k < |old(cells)| && cells[k].Link?
        ensures Listed(cells[k].ref, k)
      {
        assert old(Listed(cells[k].ref, k));
      }
      forall q, k: nat | Listed(q, k)
        ensures k < |cells| && cells[k] == Link(q)
      {
        assert q == r || old(Listed(q, k));
        assert k == |old(cells)| || old(Listed(q, k));
      }
    }

    method OpenBlock(tag: u32) returns (next: nat)
      requires Valid()
      modifies this`db, this`cells
      ensures Valid() && cells == old(cells) + [Word(tag), Word(0)] && next == |old(cells)| + 1
    {
      PutWord(tag);
      next := |db|;
      PutWord(0);
    }

    method CloseBlock(next: nat, ghost b: Block, ghost before: seq<Cell>)
      requires Valid() && next == |before| + 1
      requires cells == before + [Word(b.tag), Word(0)] + b.payload
      modifies this`db, this`cells
      ensures Valid() && cells == before + Placed(b, |before|)
    {
      db := db[next := Low32(|db|)];
      cells := cells[next := Word(Low32(|cells|))];
      assert cells == before + Placed(b, |before|);
    }

    method PutTypeEntry(reg: Registry, t: Sym, attrs: seq<Sym>)
      requires Valid() && attrs == Attrs(reg, t)
      modifies this`db, this`cells, this`backrefs
      ensures Valid() && cells == old(cells) + TypeEntry(reg, t)
    {
      PutLink(SymRef(t));
      if attrs != [] {
        PutLink(AttrRef(t));
      } else {
        PutWord(0);
      }
    }

    method PutTypeTable(reg: Registry, types: map<Sym, seq<Sym>>) returns (typeTable: map<Sym, nat>)
      requires Valid()
      requires forall t :: t in types <==> t in TypeList(reg)
      requires forall t :: t in types ==> types[t] == Attrs(reg, t)
      modifies this`db, this`cells, this`backrefs
      ensures Valid() && cells == old(cells) + Placed(TypeBlock(reg), |old(cells)|)
      ensures forall t :: t in types ==> t in typeTable && typeTable[t] == TypeIndex(reg, t)
    {
      hide Attrs, TypeList, Placed, Low32, TypeEntry;
      ghost var before := cells;
      var order := TypeList(reg);
      TypeListAscends(reg);
      var next := OpenBlock(TAG_TYPETABLE);
      PutWord(Low32(|order|));
      typeTable := map[];
      for i := 0 to |order|
        invariant Valid() && table == old(table)
        invariant cells == before + [Word(TAG_TYPETABLE), Word(0)] + ([Word(Low32(|order|))] + TypeEntries(reg, order, i))
        invariant forall k :: 0 <= k < i ==> order[k] in typeTable && typeTable[order[k]] == k
      {
        PutTypeEntry(reg, order[i], types[order[i]]);
        typeTable := typeTable[order[i] := i];
      }
      CloseBlock(next, TypeBlock(reg), before);
    }

    method PutAttrTable(reg: Registry, t: Sym, attrs: seq<Sym>, typeIndex: nat)
      requires Valid() && attrs == Attrs(reg, t) && typeIndex == TypeIndex(reg, t)
      modifies this
      ensures Valid() && cells == old(cells) + Placed(AttrBlock(reg, t), |old(cells)|)
      ensures table == Defined(old(table), AttrBlock(reg, t), |old(cells)|)
    {
      hide Attrs, TypeIndex, Placed, Low32;
      ghost var before := cells;
      var next := OpenBlock(TAG_ATTRTABLE);
      table := table[AttrRef(t) := |db|];
      PutWord(Low32(|attrs|));
      PutWord(Low32(typeIndex));
      for j := 0 to |attrs|
        invariant Valid() && table == old(table)[AttrRef(t) := |before| + 2]
        invariant cells == before + [Word(TAG_ATTRTABLE), Word(0)]
                           + ([Word(Low32(|attrs|)), Word(Low32(typeIndex))] + SymLinks(attrs, j))
      {
        PutLink(SymRef(attrs[j]));
      }
      CloseBlock(next, AttrBlock(reg, t), before);
    }

    method PutProperty(slot: Option<Entity>)
      requires Valid()
      modifies this`db, this`cells, this`backrefs
      ensures Valid() && cells == old(cells) + PropCells(slot)
    {
      match slot
      case None =>
        PutWord(0);
        PutWord(0);
      case Some(Void) =>
        PutWord(1);
        PutWord(0);
      case Some(SymbolOf(s)) =>
        PutWord(2);
        PutLink(SymRef(s));
      case Some(ObjectOf(o)) =>
        PutWord(3);
        PutLink(ObjRef(o));
      case Some(Uint(v)) =>
        PutWord(4);
        PutWord(v);
    }

    method PutSlots(reg: Registry, o: Obj, attrs: seq<Sym>, slots: seq<Option<Entity>>)
      requires Valid() && |slots| == |attrs|
      requires forall i :: 0 <= i < |attrs| ==> slots[i] == ValueOf(reg, o, attrs[i])
      modifies this`db, this`cells, this`backrefs
      ensures Valid() && cells == old(cells) + PropEntries(reg, o, attrs, |attrs|)
    {
      hide ValueOf, PropCells;
      for i := 0 to |slots|
        invariant Valid() && cells == old(cells) + PropEntries(reg, o, attrs, i)
      {
        PutProperty(slots[i]);
      }
    }

    method PutObject(reg: Registry, o: Obj, attrs: seq<Sym>, index: map<Sym, nat>, typeIndex: nat)
      requires Valid() && attrs == Attrs(reg, ObjType(reg, o)) && typeIndex == TypeIndex(reg, ObjType(reg, o))
      requires Positions(index, attrs)
      modifies this
      ensures Valid() && cells == old(cells) + Placed(ObjectBlock(reg, o), |old(cells)|)
      ensures table == Defined(old(table), ObjectBlock(reg, o), |old(cells)|)
    {
      hide Attrs, TypeIndex, Placed, LastValue, PropEntries, Low32;
      ghost var before := cells;
      var next := OpenBlock(TAG_OBJECT);
      table := table[ObjRef(o) := |db|];
      PutWord(Low32(typeIndex));
      LabelsIndexed(reg, o, index);
      var slots := FillSlots(Props(reg, o), attrs, index);
      PutSlots(reg, o, attrs, slots);
      assert cells == before + [Word(TAG_OBJECT), Word(0)] + ObjectBlock(reg, o).payload;
      CloseBlock(next, ObjectBlock(reg, o), before);
    }

    method PutRawConfig(reg: Registry)
      requires Valid()
      modifies this`db, this`cells, this`backrefs
      ensures Valid() && cells == old(cells) + Placed(RawBlock(reg), |old(cells)|)
    {
      hide Placed;
      ghost var before := cells;
      var next := OpenBlock(TAG_RAWCONFIG);
      PutWord(Low32(|reg.raw|));
      for i := 0 to |reg.raw|
        invariant Valid()
        invariant cells == before + [Word(TAG_RAWCONFIG), Word(0)] + ([Word(Low32(|reg.raw|))] + RawEntries(reg.raw, i))
      {
        PutLink(SymRef(reg.raw[i].0));
        PutLink(SymRef(reg.raw[i].1));
      }
      CloseBlock(next, RawBlock(reg), before);
    }

    method PutSymbol(reg: Registry, s: Sym)
      requires Valid()
      modifies this
      ensures Valid() && cells == old(cells) + Placed(SymbolBlock(reg, s), |old(cells)|)
      ensures table == Defined(old(table), SymbolBlock(reg, s), |old(cells)|)
    {
      hide Placed, TextWord;
      ghost var before := cells;
      var text := Text(reg, s);
      var next := OpenBlock(TAG_SYMBOL);
      table := table[SymRef(s) := |db|];
      PutWord(Low32(|text|));
      for i := 0 to |text| / 4 + 1
        invariant Valid() && table == old(table)[SymRef(s) := |before| + 2]
        invariant cells == before + [Word(TAG_SYMBOL), Word(0)] + ([Word(Low32(|text|))] + TextCells(text, i))
      {
        PutWord(TextWord(text, 4 * i));
      }
      CloseBlock(next, SymbolBlock(reg, s), before);
    }

    // Write every reference over the zeros left for it.
    method Patch()
      requires Valid()
      modifies this`db
      ensures db == Resolved(cells, table)
    {
      hide Low32;
      var todo := backrefs.Keys;
      while todo != {}
        invariant |db| == |cells| && todo <= backrefs.Keys
        invariant forall k :: 0 <= k < |cells| && cells[k].Word? ==> db[k] == cells[k].w
        invariant forall k :: 0 <= k < |cells| && cells[k].Link? && cells[k].ref !in todo ==> db[k] == Resolve(cells[k], table)
        decreases |todo|
      {
        var r :| r in todo;
        var at := backrefs[r];
        var value := if r in table then Low32(table[r]) else 0;
        for j := 0 to |at|
          invariant |db| == |cells|
          invariant forall k :: 0 <= k < |cells| && cells[k].Word? ==> db[k] == cells[k].w
          invariant forall k :: 0 <= k < |cells| && cells[k].Link? && cells[k].ref !in todo ==> db[k] == Resolve(cells[k], table)
          invariant forall i :: 0 <= i < j ==> at[i] < |db| && db[at[i]] == value
        {
          assert Listed(r, at[j]);
          db := db[at[j] := value];
        }
        forall k | 0 <= k < |cells| && cells[k] == Link(r)
          ensures db[k] == Resolve(cells[k], table)
        {
          assert Listed(r, k);
        }
        todo := todo - {r};
      }
    }
  }

  lemma TypeListAscends(reg: Registry)
    ensures forall i, j :: 0 <= i < j < |TypeList(reg)| ==> TypeList(reg)[i] != TypeList(reg)[j]
  {
    OrderedKeys(set o | o in reg.objects :: reg.objects[o]);
  }

  lemma LabelsIndexed(reg: Registry, o: Obj, index: map<Sym, nat>)
    requires Positions(index, Attrs(reg, ObjType(reg, o)))
    ensures forall k :: 0 <= k < |Props(reg, o)| ==> Props(reg, o)[k].0 in index
  {
    forall k | 0 <= k < |Props(reg, o)|
      ensures Props(reg, o)[k].0 in index
    {
      LabelIsAttr(reg, o, k);
    }
  }

  // What has been emitted so far: the magic word and the blocks bs, with the references they define.
  ghost predicate Emitted(cells: seq<Cell>, table: map<Ref, nat>, bs: seq<Block>) {
    cells == [Word(CONF_MAGIC)] + Chain(bs, |bs|) && table == Links(bs, |bs|)
  }

  lemma EmittedSnoc(cells: seq<Cell>, table: map<Ref, nat>, bs: seq<Block>, b: Block)
    requires Emitted(cells, table, bs)
    ensures Emitted(cells + Placed(b, |cells|), Defined(table, b, |cells|), bs + [b])
  {
    hide Placed, Defined, Chain, Links;
    ChainSnoc(bs, b);
  }

  method EmitAttrTables(e: Emitter, reg: Registry, types: map<Sym, seq<Sym>>, typeTable: map<Sym, nat>, ghost bs: seq<Block>)
    requires e.Valid() && Emitted(e.cells, e.table, bs)
    requires forall t :: t in TypeList(reg) ==> t in types && types[t] == Attrs(reg, t)
    requires forall t :: t in TypeList(reg) ==> t in typeTable && typeTable[t] == TypeIndex(reg, t)
    modifies e
    ensures e.Valid() && Emitted(e.cells, e.table, bs + AttrBlocks(reg, TypeList(reg), |TypeList(reg)|))
  {
    hide AttrBlock, Placed, Defined, TypeIndex, Emitted, Attrs, TypeList;
    var order := TypeList(reg);
    assert bs + [] == bs;
    for i := 0 to |order|
      invariant e.Valid() && Emitted(e.cells, e.table, bs + AttrBlocks(reg, order, i))
    {
      var t := order[i];
      assert t in order;
      ghost var soFar := bs + AttrBlocks(reg, order, i);
      if types[t] != [] {
        EmittedSnoc(e.cells, e.table, soFar, AttrBlock(reg, t));
        e.PutAttrTable(reg, t, types[t], typeTable[t]);
        assert soFar + [AttrBlock(reg, t)] == bs + AttrBlocks(reg, order, i + 1);
      } else {
        assert soFar == bs + AttrBlocks(reg, order, i + 1);
      }
    }
  }

  method EmitObjects(e: Emitter, reg: Registry, types: map<Sym, seq<Sym>>, typeAttrs: map<Sym, map<Sym, nat>>,
                     typeTable: map<Sym, nat>, ghost bs: seq<Block>)
    requires e.Valid() && Emitted(e.cells, e.table, bs)
    requires forall t :: t in TypeList(reg) ==> t in types && types[t] == Attrs(reg, t)
    requires forall t :: t in TypeList(reg) ==> t in typeAttrs && Positions(typeAttrs[t], Attrs(reg, t))
    requires forall t :: t in TypeList(reg) ==> t in typeTable && typeTable[t] == TypeIndex(reg, t)
    modifies e
    ensures e.Valid() && Emitted(e.cells, e.table, bs + ObjectBlocks(reg, ObjList(reg), |ObjList(reg)|))
  {
    hide ObjectBlock, Placed, Defined, TypeIndex, Emitted, Attrs, Positions, TypeList, ObjList;
    var objs := ObjList(reg);
    assert bs + [] == bs;
    for i := 0 to |objs|
      invariant e.Valid() && Emitted(e.cells, e.table, bs + ObjectBlocks(reg, objs, i))
    {
      ObjTypeIsListed(reg, i);
      var t := reg.objects[objs[i]];
      ghost var soFar := bs + ObjectBlocks(reg, objs, i);
      EmittedSnoc(e.cells, e.table, soFar, ObjectBlock(reg, objs[i]));
      e.PutObject(reg, objs[i], types[t], typeAttrs[t], typeTable[t]);
      assert soFar + [ObjectBlock(reg, objs[i])] == bs + ObjectBlocks(reg, objs, i + 1);
    }
  }

  method EmitSymbols(e: Emitter, reg: Registry, ghost bs: seq<Block>)
    requires e.Valid() && Emitted(e.cells, e.table, bs)
    modifies e
    ensures e.Valid() && Emitted(e.cells, e.table, bs + SymbolBlocks(reg, reg.symbols, |reg.symbols|))
  {
    hide SymbolBlock, Placed, Defined, Emitted;
    assert bs + [] == bs;
    for i := 0 to |reg.symbols|
      invariant e.Valid() && Emitted(e.cells, e.table, bs + SymbolBlocks(reg, reg.symbols, i))
    {
      ghost var soFar := bs + SymbolBlocks(reg, reg.symbols, i);
      EmittedSnoc(e.cells, e.table, soFar, SymbolBlock(reg, reg.symbols[i]));
      e.PutSymbol(reg, reg.symbols[i]);
      assert soFar + [SymbolBlock(reg, reg.symbols[i])] == bs + SymbolBlocks(reg, reg.symbols, i + 1);
    }
  }

  lemma ObjTypeIsListed(reg: Registry, i: nat)
    requires i < |ObjList(reg)|
    ensures ObjList(reg)[i] in reg.objects && ObjType(reg, ObjList(reg)[i]) == reg.objects[ObjList(reg)[i]]
    ensures reg.objects[ObjList(reg)[i]] in TypeList(reg)
  {
    hide TypeList;
    OrderedKeys(reg.objects.Keys);
    var o := ObjList(reg)[i];
    assert o in ObjList(reg);
    TypeListTypes(reg);
    assert IsType(reg, reg.objects[o]);
  }

  lemma FixedBlocks(reg: Registry, links: map<Ref, nat>, at: nat)
    ensures Defined(links, TypeBlock(reg), at) == links && Defined(links, RawBlock(reg), at) == links
    ensures Emitted([Word(CONF_MAGIC)], map[], [])
  {
  }

  lemma EmittedAll(cells: seq<Cell>, table: map<Ref, nat>, bs: seq<Block>)
    requires Emitted(cells, table, bs)
    ensures cells + [Word(0)] == RomCells(bs) && table == Links(bs, |bs|)
  {
  }

  // The one-pass, back-patching emitter produces the image in which every reference already is
  // the offset of what it refers to.
  method GetConfWords(reg: Registry) returns (words: seq<u32>)
    requires reg.props.Keys <= reg.objects.Keys
    ensures words == Rom(reg)
  {
    hide *;
    var types, typeAttrs := CollectPropertiesByType(reg);
    var e := new Emitter();
    e.PutWord(CONF_MAGIC);
    assert e.cells == [Word(CONF_MAGIC)];
    ghost var bs: seq<Block> := [];
    FixedBlocks(reg, e.table, |e.cells|);
    EmittedSnoc(e.cells, e.table, bs, TypeBlock(reg));
    var typeTable := e.PutTypeTable(reg, types);
    bs := bs + [TypeBlock(reg)];
    EmitAttrTables(e, reg, types, typeTable, bs);
    bs := bs + AttrBlocks(reg, TypeList(reg), |TypeList(reg)|);
    EmitObjects(e, reg, types, typeAttrs, typeTable, bs);
    bs := bs + ObjectBlocks(reg, ObjList(reg), |ObjList(reg)|);
    FixedBlocks(reg, e.table, |e.cells|);
    EmittedSnoc(e.cells, e.table, bs, RawBlock(reg));
    e.PutRawConfig(reg);
    bs := bs + [RawBlock(reg)];
    EmitSymbols(e, reg, bs);
    bs := bs + SymbolBlocks(reg, reg.symbols, |reg.symbols|);
    EmittedAll(e.cells, e.table, bs);
    e.PutWord(0);
    e.Patch();
    words := e.db;
    AllBlocks(reg, bs);
  }

  lemma AllBlocks(reg: Registry, bs: seq<Block>)
    requires bs == [] + [TypeBlock(reg)] + AttrBlocks(reg, TypeList(reg), |TypeList(reg)|)
                   + ObjectBlocks(reg, ObjList(reg), |ObjList(reg)|) + [RawBlock(reg)]
                   + SymbolBlocks(reg, reg.symbols, |reg.symbols|)
    ensures Rom(reg) == Resolved(RomCells(bs), Links(bs, |bs|))
  {
    hide TypeBlock, AttrBlocks, ObjectBlocks, RawBlock, SymbolBlocks, TypeList, ObjList, Resolved, RomCells, Links;
    assert [] + [TypeBlock(reg)] == [TypeBlock(reg)];
  }
}
