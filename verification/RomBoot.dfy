// programs/mtconf.c, sys_conf_init: what the boot code learns from the ROM about the system.
module RomBoot {
  import opened Arith
  import opened Bits
  import opened RomLayout
  import opened RomImage
  import opened RomReader
  import opened RomText
  import opened Options

  const NONE: u32 := 0xFFFF_FFFF

  // The characters of a literal.
  function Bytes(s: string): (text: seq<u8>)
    ensures |text| == |s| && forall i :: 0 <= i < |s| ==> text[i] == s[i] as nat % 256
  {
    seq(|s|, i requires 0 <= i < |s| => s[i] as nat % 256)
  }

  const SYSTEM := Bytes("system")
  const CPU := Bytes("cpu")
  const VERSION := Bytes("version")
  const MASTERFREQ := Bytes("masterfreq")
  const FREQ := Bytes("freq")
  const THREADS := Bytes("threads")
  const FAMILIES := Bytes("families")
  const PID := Bytes("pid")

  // strcmp(...) == 0 against a literal of 7-bit characters. It is right even for a string with
  // characters that spill: the comparison ends at the first of them.
  method StrEq(cfg: seq<u32>, p: nat, lit: seq<u8>, ghost text: seq<u8>) returns (eq: bool)
    requires HoldsText(cfg, p, text) && ZeroFree(text) && Ascii(lit)
    ensures eq <==> text == lit
  {
    hide HoldsText, CharByte;
    var k := 0;
    while true
      invariant k <= |text| && k <= |lit| && text[..k] == lit[..k]
      decreases |text| - k
    {
      PrefixReads(cfg, p, text, k);
      TextBounds(cfg, p, text);
      if CharByte(cfg, p, k) != Char(lit, k) {
        return false;
      }
      if Char(lit, k) == 0 {
        assert text == text[..k] && lit == lit[..k];
        return true;
      }
      k := k + 1;
    }
  }

  lemma TextBounds(cfg: seq<u32>, p: nat, text: seq<u8>)
    requires HoldsText(cfg, p, text)
    ensures p + 1 + |text| / 4 < |cfg|
  {
  }

  // ----- names looked up in the ROM

  // The first of n symbols with a given text, or -1.
  ghost function FindName(reg: Registry, syms: seq<Sym>, n: nat, name: seq<u8>): (r: u32)
    requires n <= |syms| && n < NONE
    ensures r == NONE || (r < n && Text(reg, syms[r]) == name)
  {
    if n == 0 then NONE
    else if FindName(reg, syms, n - 1, name) != NONE then FindName(reg, syms, n - 1, name)
    else if Text(reg, syms[n - 1]) == name then n - 1
    else NONE
  }

  // What the ROM's reader may rely on: offsets fit a word, strings are zero-free and distinct, and
  // the two types looked for have attributes; see TableInImage.
  ghost predicate Bootable(reg: Registry) {
    && WellFormed(reg)
    && |Rom(reg)| < NONE
    && (forall s :: s in reg.symbols ==> ZeroFree(Text(reg, s)))
    && (forall s, s' :: s in reg.symbols && s' in reg.symbols && Text(reg, s) == Text(reg, s') ==> s == s')
    && (forall t :: t in TypeList(reg) && (Text(reg, t) == SYSTEM || Text(reg, t) == CPU) ==> Attrs(reg, t) != [])
  }

  // The code takes offset 0 for the table of a type without attributes, and so the magic number
  // for their count. The table of a type, as the code finds it, lies within the image exactly if
  // the type has an attribute.
  lemma TableInImage(reg: Registry, i: nat)
    requires i < |TypeList(reg)| && |Rom(reg)| < CONF_MAGIC
    ensures var table := if Attrs(reg, TypeList(reg)[i]) == [] then 0 else Addr(reg, AttrRef(TypeList(reg)[i]));
      && 3 + (1 + 2 * i + 1) < |Rom(reg)| && Rom(reg)[3 + (1 + 2 * i + 1)] == table < |Rom(reg)|
      && (table + 2 + Rom(reg)[table] <= |Rom(reg)| <==> Attrs(reg, TypeList(reg)[i]) != [])
  {
    hide Rom, Addr, Attrs, TypeList;
    TypeTableReads(reg);
    MagicFirst(reg);
    if Attrs(reg, TypeList(reg)[i]) != [] {
      AttrTableReads(reg, i);
    }
  }

  lemma MagicFirst(reg: Registry)
    ensures |Rom(reg)| > 0 && Rom(reg)[0] == CONF_MAGIC
  {
    hide Blocks, StartOf, Links;
    ChainEnd(Blocks(reg));
  }

  // The offsets of an attribute table's symbols lie at `table`.
  ghost predicate TableAt(reg: Registry, cfg: seq<u32>, table: nat, syms: seq<Sym>) {
    && table + 2 + |syms| <= |cfg|
    && forall j :: 0 <= j < |syms| ==> cfg[table + 2 + j] == Addr(reg, SymRef(syms[j]))
  }

  // The chain of comparisons against the names still being looked for.
  method MatchName(cfg: seq<u32>, p: nat, j: u32, names: seq<seq<u8>>, ids: seq<u32>, ghost text: seq<u8>) returns (r: seq<u32>)
    requires HoldsText(cfg, p, text) && ZeroFree(text)
    requires |names| == |ids| && forall i :: 0 <= i < |names| ==> Ascii(names[i])
    requires forall i, i' :: 0 <= i < i' < |names| ==> names[i] != names[i']
    ensures |r| == |ids|
    ensures forall i :: 0 <= i < |ids| ==> r[i] == if ids[i] == NONE && text == names[i] then j else ids[i]
  {
    hide HoldsText, ZeroFree, Ascii;
    r := ids;
    for i := 0 to |names|
      invariant r == ids
      invariant forall k :: 0 <= k < i ==> ids[k] != NONE || text != names[k]
    {
      if ids[i] == NONE {
        var eq := StrEq(cfg, p, names[i], text);
        if eq {
          r := ids[i := j];
          return;
        }
      }
    }
  }

  method ScanAttrs(cfg: seq<u32>, table: nat, n: u32, names: seq<seq<u8>>, ghost reg: Registry, ghost syms: seq<Sym>)
    returns (ids: seq<u32>)
    requires cfg == Rom(reg) && Bootable(reg) && Symbols(reg, syms)
    requires TableAt(reg, cfg, table, syms) && n == |syms| < NONE
    requires forall i :: 0 <= i < |names| ==> Ascii(names[i])
    requires forall i, i' :: 0 <= i < i' < |names| ==> names[i] != names[i']
    ensures |ids| == |names| && forall i :: 0 <= i < |names| ==> ids[i] == FindName(reg, syms, n, names[i])
  {
    hide Rom, ZeroFree, Ascii, HoldsText, Addr;
    ids := seq(|names|, _ => NONE);
    for j := 0 to n
      invariant |ids| == |names|
      invariant forall i :: 0 <= i < |names| ==> ids[i] == FindName(reg, syms, j, names[i])
    {
      var aname := cfg[table + 2 + j];
      SymbolReads(reg, syms[j]);
      ids := MatchName(cfg, aname, j, names, ids, Text(reg, syms[j]));
    }
  }

  const SYSTEM_NAMES: seq<seq<u8>> := [VERSION, MASTERFREQ]
  const CORE_NAMES: seq<seq<u8>> := [FREQ, THREADS, FAMILIES, PID]

  lemma NamesAreAscii()
    ensures Ascii(SYSTEM) && Ascii(CPU)
    ensures forall i :: 0 <= i < |SYSTEM_NAMES| ==> Ascii(SYSTEM_NAMES[i])
    ensures forall i :: 0 <= i < |CORE_NAMES| ==> Ascii(CORE_NAMES[i])
    ensures forall i, j :: 0 <= i < j < |SYSTEM_NAMES| ==> |SYSTEM_NAMES[i]| != |SYSTEM_NAMES[j]|
    ensures forall i, j :: 0 <= i < j < |CORE_NAMES| ==> |CORE_NAMES[i]| != |CORE_NAMES[j]|
  {
    hide Ascii;
    LiteralIsAscii("system");
    LiteralIsAscii("cpu");
    LiteralIsAscii("version");
    LiteralIsAscii("masterfreq");
    LiteralIsAscii("freq");
    LiteralIsAscii("threads");
    LiteralIsAscii("families");
    LiteralIsAscii("pid");
  }

  lemma LiteralIsAscii(s: string)
    requires forall i :: 0 <= i < |s| ==> ' ' <= s[i] <= '~'
    ensures Ascii(Bytes(s))
  {
  }

  ghost function TypeIdOf(reg: Registry, name: seq<u8>): u32
    requires |TypeList(reg)| < NONE
  {
    FindName(reg, TypeList(reg), |TypeList(reg)|, name)
  }

  // The position of an attribute of the type with index typ.
  ghost function AttrIdOf(reg: Registry, typ: u32, name: seq<u8>): u32 {
    if typ < |TypeList(reg)| && |Attrs(reg, TypeList(reg)[typ])| < NONE
    then FindName(reg, Attrs(reg, TypeList(reg)[typ]), |Attrs(reg, TypeList(reg)[typ])|, name)
    else NONE
  }

  ghost predicate IdsOf(reg: Registry, typ: u32, names: seq<seq<u8>>, ids: seq<u32>) {
    |ids| == |names| && forall i :: 0 <= i < |names| ==> ids[i] == AttrIdOf(reg, typ, names[i])
  }

  // Scan the attributes of the type whose attribute table the ROM gives at `table`.
  method ScanType(cfg: seq<u32>, table: nat, i: u32, names: seq<seq<u8>>, ghost reg: Registry) returns (ids: seq<u32>)
    requires cfg == Rom(reg) && Bootable(reg) && i < |TypeList(reg)|
    requires Attrs(reg, TypeList(reg)[i]) != [] && table == Addr(reg, AttrRef(TypeList(reg)[i]))
    requires forall k :: 0 <= k < |names| ==> Ascii(names[k])
    requires forall k, k' :: 0 <= k < k' < |names| ==> |names[k]| != |names[k']|
    ensures IdsOf(reg, i, names, ids)
  {
    hide Rom, Addr, Attrs, TypeList, ZeroFree, Ascii;
    AttrTableReads(reg, i);
    AttrsAreSymbols(reg, TypeList(reg)[i]);
    ids := ScanAttrs(cfg, table, cfg[table], names, reg, Attrs(reg, TypeList(reg)[i]));
  }

  // What is known of a wanted type after n entries of the type table.
  ghost predicate Known(reg: Registry, n: nat, name: seq<u8>, names: seq<seq<u8>>, typ: u32, ids: seq<u32>)
    requires n <= |TypeList(reg)| && n < NONE
  {
    typ == FindName(reg, TypeList(reg), n, name) && IdsOf(reg, typ, names, ids)
  }

  // One entry of the type table, looked at for one of the two types.
  method ReadType(cfg: seq<u32>, p: nat, i: u32, want: seq<u8>, names: seq<seq<u8>>, typ: u32, ids: seq<u32>, ghost reg: Registry)
    returns (typ': u32, ids': seq<u32>)
    requires cfg == Rom(reg) && Bootable(reg) && p == 1 && i < |TypeList(reg)| < NONE
    requires want == SYSTEM || want == CPU
    requires names == SYSTEM_NAMES || names == CORE_NAMES
    requires Known(reg, i, want, names, typ, ids)
    ensures Known(reg, i + 1, want, names, typ', ids')
  {
    hide Rom, Addr, Attrs, TypeList, ZeroFree, Ascii, IdsOf, HoldsText, WellFormed;
    TypeTableReads(reg);
    NamesAreAscii();
    TypesAreSymbols(reg);
    typ', ids' := typ, ids;
    ghost var t := TypeList(reg)[i];
    SymbolReads(reg, t);
    var eq := StrEq(cfg, cfg[p + 2 + (1 + 2 * i)], want, Text(reg, t));
    if eq {
      OnlyOneType(reg, i, want);
      typ' := i;
      ids' := ScanType(cfg, cfg[p + 2 + (1 + 2 * i + 1)], i, names, reg);
    }
  }

  // Types have distinct names, so at most one matches.
  lemma OnlyOneType(reg: Registry, i: u32, name: seq<u8>)
    requires Bootable(reg) && i < |TypeList(reg)| < NONE && Text(reg, TypeList(reg)[i]) == name
    ensures FindName(reg, TypeList(reg), i, name) == NONE
  {
    hide Rom, TypeList, Attrs;
    TypesAreSymbols(reg);
  }

  method ReadTypes(cfg: seq<u32>, p: nat, ghost reg: Registry)
    returns (sysType: u32, sysIds: seq<u32>, coreType: u32, coreIds: seq<u32>)
    requires cfg == Rom(reg) && Bootable(reg) && p == 1
    ensures |TypeList(reg)| < NONE
    ensures Known(reg, |TypeList(reg)|, SYSTEM, SYSTEM_NAMES, sysType, sysIds)
    ensures Known(reg, |TypeList(reg)|, CPU, CORE_NAMES, coreType, coreIds)
  {
    hide Rom, Addr, Attrs, TypeList, Known, WellFormed;
    TypeTableReads(reg);
    NothingKnown(reg);
    sysType, coreType := NONE, NONE;
    sysIds, coreIds := [NONE, NONE], [NONE, NONE, NONE, NONE];
    var ntypes := cfg[p + 2];
    for i := 0 to ntypes
      invariant Known(reg, i, SYSTEM, SYSTEM_NAMES, sysType, sysIds)
      invariant Known(reg, i, CPU, CORE_NAMES, coreType, coreIds)
    {
      // once found, the system type is not compared again; no other type has its name
      if sysType == NONE {
        sysType, sysIds := ReadType(cfg, p, i, SYSTEM, SYSTEM_NAMES, sysType, sysIds, reg);
      } else {
        StillKnown(reg, i, SYSTEM, SYSTEM_NAMES, sysType, sysIds);
      }
      coreType, coreIds := ReadType(cfg, p, i, CPU, CORE_NAMES, coreType, coreIds, reg);
    }
  }

  lemma StillKnown(reg: Registry, i: nat, name: seq<u8>, names: seq<seq<u8>>, typ: u32, ids: seq<u32>)
    requires i < |TypeList(reg)| < NONE && typ != NONE && Known(reg, i, name, names, typ, ids)
    ensures Known(reg, i + 1, name, names, typ, ids)
  {
    hide IdsOf, TypeList;
  }

  lemma NothingKnown(reg: Registry)
    requires |TypeList(reg)| < NONE
    ensures Known(reg, 0, SYSTEM, SYSTEM_NAMES, NONE, [NONE, NONE])
    ensures Known(reg, 0, CPU, CORE_NAMES, NONE, [NONE, NONE, NONE, NONE])
  {
    hide TypeList;
  }

  // ----- what the registry says, with no offsets left

  // The word an object has under a named attribute of its type; without one, the reader's index
  // wraps around and it finds the object's type number instead.
  ghost function AttrWord(reg: Registry, o: Obj, name: seq<u8>): u32 {
    var attrs := Attrs(reg, ObjType(reg, o));
    if |attrs| < NONE && FindName(reg, attrs, |attrs|, name) != NONE
    then ValueWord(reg, ValueOf(reg, o, attrs[FindName(reg, attrs, |attrs|, name)]))
    else Low32(TypeIndex(reg, ObjType(reg, o)))
  }

  // ----- and what that is in terms of what was registered

  // The last property of this name that object o has is e.
  ghost predicate Given(reg: Registry, o: Obj, name: seq<u8>, e: Entity) {
    && o in reg.props
    && exists k :: 0 <= k < |reg.props[o]| && GivenAt(reg, reg.props[o], k, name, e)
  }

  ghost predicate GivenAt(reg: Registry, props: seq<(Sym, Entity)>, k: nat, name: seq<u8>, e: Entity)
    requires k < |props|
  {
    Text(reg, props[k].0) == name && props[k].1 == e && forall m :: k < m < |props| ==> Text(reg, props[m].0) != name
  }

  // Object o has a property of this name.
  ghost predicate Named(reg: Registry, o: Obj, name: seq<u8>) {
    o in reg.props && exists k :: 0 <= k < |reg.props[o]| && Text(reg, reg.props[o][k].0) == name
  }

  // An object of the same type does.
  ghost predicate NamedByType(reg: Registry, o: Obj, name: seq<u8>)
    requires o in reg.objects
  {
    exists o' :: o' in reg.objects && reg.objects[o'] == reg.objects[o] && Named(reg, o', name)
  }

  // What is found for a name: the value last given, a number as it is, a string or an object as the
  // place in the image where it lies; nothing, where only other objects of the type have a value; and
  // the number of the type, where none has.
  ghost predicate Tells(reg: Registry, o: Obj, name: seq<u8>, word: u32)
    requires o in reg.objects
  {
    && (forall v: u32 :: Given(reg, o, name, Uint(v)) ==> word == v)
    && (Given(reg, o, name, Void) ==> word == 0)
    && (forall s :: Given(reg, o, name, SymbolOf(s)) ==> StringAt(Rom(reg), word, Text(reg, s)))
    && (forall o' :: Given(reg, o, name, ObjectOf(o')) ==> ObjectBlockIs(reg, word, o'))
    && (!Named(reg, o, name) && NamedByType(reg, o, name) ==> word == 0)
    && (!NamedByType(reg, o, name) ==> word < |TypeList(reg)| && TypeList(reg)[word] == reg.objects[o])
  }

  // A name belongs to one symbol.
  lemma NameIsSymbol(reg: Registry, o: Obj, a: Sym, name: seq<u8>)
    requires Bootable(reg) && a in reg.symbols && Text(reg, a) == name
    ensures Named(reg, o, name) <==> ValueOf(reg, o, a).Some?
    ensures forall e :: Given(reg, o, name, e) <==> ValueOf(reg, o, a) == Some(e)
  {
    hide Rom, ValueOf, Attrs, TypeList, Text;
    ValueOfMeans(reg, o, a);
    if o in reg.props {
      SameLabels(reg, o, a, name);
      if ValueOf(reg, o, a).Some? {
        var e := ValueOf(reg, o, a).value;
        var k: nat :| k < |reg.props[o]| && reg.props[o][k] == (a, e) && forall m :: k < m < |reg.props[o]| ==> reg.props[o][m].0 != a;
        assert GivenAt(reg, reg.props[o], k, name, e);
      }
    }
  }

  lemma SameLabels(reg: Registry, o: Obj, a: Sym, name: seq<u8>)
    requires Bootable(reg) && a in reg.symbols && Text(reg, a) == name && o in reg.props
    ensures forall k :: 0 <= k < |reg.props[o]| ==> (Text(reg, reg.props[o][k].0) == name <==> reg.props[o][k].0 == a)
  {
    hide Rom, Attrs, TypeList, Text;
  }

  // An attribute that no object has the name of is none of the type.
  lemma NamedIsAttr(reg: Registry, o: Obj, o': Obj, name: seq<u8>)
    requires Bootable(reg) && o in reg.objects && o' in reg.objects && reg.objects[o'] == reg.objects[o] && Named(reg, o', name)
    ensures exists i :: 0 <= i < |Attrs(reg, ObjType(reg, o))| && Text(reg, Attrs(reg, ObjType(reg, o))[i]) == name
  {
    hide Rom, Attrs, ValueOf, Text;
    var k: nat :| k < |reg.props[o']| && Text(reg, reg.props[o'][k].0) == name;
    var a := reg.props[o'][k].0;
    ValueOfMeans(reg, o', a);
    AttrsMean(reg, ObjType(reg, o), a);
    assert a in Attrs(reg, ObjType(reg, o));
  }

  lemma AttrIsNamed(reg: Registry, o: Obj, a: Sym, name: seq<u8>)
    requires Bootable(reg) && o in reg.objects && a in Attrs(reg, ObjType(reg, o)) && Text(reg, a) == name
    ensures NamedByType(reg, o, name)
  {
    hide Rom, Attrs, ValueOf, Text, TypeList;
    AttrsMean(reg, ObjType(reg, o), a);
    var o' :| o' in reg.props && ObjType(reg, o') == ObjType(reg, o) && ValueOf(reg, o', a) != None;
    ValueOfMeans(reg, o', a);
    assert Named(reg, o', name);
  }

  lemma WordTells(reg: Registry, o: Obj, name: seq<u8>)
    requires Bootable(reg) && o in reg.objects
    ensures Tells(reg, o, name, AttrWord(reg, o, name))
  {
    hide Rom, Attrs, ValueOf, Text, TypeList, TypeIndex, Given, Named, NamedByType, StringAt, ObjectBlockIs, ObjType, WellFormed, Addr;
    var attrs := Attrs(reg, ObjType(reg, o));
    AttrsFew(reg, o);
    var id := FindName(reg, attrs, |attrs|, name);
    FindNameFinds(reg, attrs, |attrs|, name);
    if id == NONE {
      NotNamed(reg, o, name);
      NumberOfType(reg, o);
    } else {
      AttrsAreSymbols(reg, ObjType(reg, o));
      var a := attrs[id];
      NameIsSymbol(reg, o, a, name);
      AttrIsNamed(reg, o, a, name);
      ValueInImage(reg, o, a);
    }
  }

  lemma AttrsFew(reg: Registry, o: Obj)
    requires Bootable(reg) && o in reg.objects
    ensures |Attrs(reg, ObjType(reg, o))| < NONE
  {
    hide Rom, Attrs, TypeList, Ordered, ObjType, WellFormed, Text, Follow;
    OrderedKeys(reg.objects.Keys);
    assert o in ObjList(reg);
    var i: nat :| i < |ObjList(reg)| && ObjList(reg)[i] == o;
    ObjectImage(reg, i);
  }

  lemma NotNamed(reg: Registry, o: Obj, name: seq<u8>)
    requires Bootable(reg) && o in reg.objects
    requires forall i :: 0 <= i < |Attrs(reg, ObjType(reg, o))| ==> Text(reg, Attrs(reg, ObjType(reg, o))[i]) != name
    ensures !NamedByType(reg, o, name) && !Named(reg, o, name)
    ensures forall e :: !Given(reg, o, name, e)
  {
    hide Rom, Attrs, Text, TypeList, Named;
    forall o' | o' in reg.objects && reg.objects[o'] == reg.objects[o]
      ensures !Named(reg, o', name)
    {
      if Named(reg, o', name) {
        NamedIsAttr(reg, o, o', name);
      }
    }
    forall e
      ensures !Given(reg, o, name, e)
    {
      GivenIsNamed(reg, o, name, e);
    }
  }

  lemma GivenIsNamed(reg: Registry, o: Obj, name: seq<u8>, e: Entity)
    ensures Given(reg, o, name, e) ==> Named(reg, o, name)
  {
  }

  lemma NumberOfType(reg: Registry, o: Obj)
    requires Bootable(reg) && o in reg.objects
    ensures var word := Low32(TypeIndex(reg, ObjType(reg, o))); word < |TypeList(reg)| && TypeList(reg)[word] == reg.objects[o]
  {
    hide Rom, Attrs, TypeList, Ordered, TypeIndex, WellFormed, Text;
    OrderedKeys(reg.objects.Keys);
    assert o in ObjList(reg);
    var i: nat :| i < |ObjList(reg)| && ObjList(reg)[i] == o;
    TypeListed(reg, i);
  }

  lemma ValueInImage(reg: Registry, o: Obj, a: Sym)
    requires Bootable(reg)
    ensures var e := ValueOf(reg, o, a);
      && (forall s :: e == Some(SymbolOf(s)) ==> StringAt(Rom(reg), ValueWord(reg, e), Text(reg, s)))
      && (forall o' :: e == Some(ObjectOf(o')) ==> ObjectBlockIs(reg, ValueWord(reg, e), o'))
  {
    hide Rom, Attrs, TypeList, ValueOf, Text, StringAt, ObjectBlockIs, WellFormed, Addr;
    ValueKnown(reg, o, a);
    match ValueOf(reg, o, a)
    case Some(SymbolOf(s)) => StringImage(reg, s);
    case Some(ObjectOf(o')) => ObjectRefImage(reg, o');
    case _ =>
  }

  datatype BootConf = BootConf(masterFreq: u32, coreFreq: u32, ttesPerCore: u32, ftesPerCore: u32)

  // The configuration after the first n objects: the first system object gives the master
  // frequency, the first core the core properties.
  ghost function BootUpTo(reg: Registry, n: nat, conf: BootConf): (bool, BootConf)
    requires n <= |ObjList(reg)|
  {
    if n == 0 then (false, conf)
    else
      var o := ObjList(reg)[n - 1];
      var (systemSeen, c) := BootUpTo(reg, n - 1, conf);
      if Text(reg, ObjType(reg, o)) == SYSTEM && !systemSeen then (true, c.(masterFreq := AttrWord(reg, o, MASTERFREQ)))
      else if Text(reg, ObjType(reg, o)) == CPU && c.coreFreq == NONE then
        (systemSeen, c.(coreFreq := AttrWord(reg, o, FREQ), ttesPerCore := AttrWord(reg, o, THREADS),
                        ftesPerCore := AttrWord(reg, o, FAMILIES)))
      else (systemSeen, c)
  }

  ghost predicate IsOfType(reg: Registry, i: nat, name: seq<u8>)
    requires i < |ObjList(reg)|
  {
    Text(reg, ObjType(reg, ObjList(reg)[i])) == name
  }

  // The master frequency is that of the first system object, whatever comes after it.
  lemma {:induction false} BootedSystem(reg: Registry, n: nat, conf0: BootConf, i: nat)
    requires i < |ObjList(reg)| && n <= |ObjList(reg)|
    requires IsOfType(reg, i, SYSTEM) && forall j :: 0 <= j < i ==> !IsOfType(reg, j, SYSTEM)
    ensures BootUpTo(reg, n, conf0).0 <==> i < n
    ensures BootUpTo(reg, n, conf0).1.masterFreq == if i < n then AttrWord(reg, ObjList(reg)[i], MASTERFREQ) else conf0.masterFreq
  {
    hide ObjList, ObjType, AttrWord;
    if n > 0 {
      BootedSystem(reg, n - 1, conf0, i);
      assert IsOfType(reg, n - 1, SYSTEM) ==> n - 1 >= i;
    }
  }

  // Its core properties are taken if no others have been; the one that marks that is no frequency.
  ghost predicate Counts(reg: Registry, i: nat)
    requires i < |ObjList(reg)|
  {
    IsOfType(reg, i, CPU) && AttrWord(reg, ObjList(reg)[i], FREQ) != NONE
  }

  // The core configuration is that of the first core with a frequency.
  lemma {:induction false} BootedCore(reg: Registry, n: nat, conf0: BootConf, i: nat)
    requires i < |ObjList(reg)| && n <= |ObjList(reg)| && conf0.coreFreq == NONE
    requires Counts(reg, i) && forall j :: 0 <= j < i ==> !Counts(reg, j)
    ensures var o, c := ObjList(reg)[i], BootUpTo(reg, n, conf0).1;
      if i < n then
        c.coreFreq == AttrWord(reg, o, FREQ) && c.ttesPerCore == AttrWord(reg, o, THREADS) && c.ftesPerCore == AttrWord(reg, o, FAMILIES)
      else c.coreFreq == NONE
  {
    hide ObjList, ObjType, AttrWord;
    if n > 0 {
      BootedCore(reg, n - 1, conf0, i);
      assert IsOfType(reg, n - 1, CPU) && n - 1 < i ==> !Counts(reg, n - 1);
    }
  }

  // 1 + 2 * id + 1 in 32-bit arithmetic
  function AttrIndex(id: u32): u32 {
    (1 + 2 * id + 1) % U32_SIZE
  }

  lemma ReadAttrIsWord(reg: Registry, o: Obj, p: nat, id: u32, name: seq<u8>)
    requires Bootable(reg) && ObjectAt(reg, p, o)
    requires |Attrs(reg, ObjType(reg, o))| < NONE
    requires id == FindName(reg, Attrs(reg, ObjType(reg, o)), |Attrs(reg, ObjType(reg, o))|, name)
    ensures p + 2 + AttrIndex(id) < |Rom(reg)|
    ensures Rom(reg)[p + 2 + AttrIndex(id)] == AttrWord(reg, o, name)
  {
    hide Rom, Attrs, ObjType, ValueWord, TypeIndex, ValueOf, Low32, WellFormed, TypeList;
    if id == NONE {
      assert AttrIndex(id) == 0;
    } else {
      ModSmall(1 + 2 * id + 1, U32_SIZE);
    }
  }

  lemma TypeNumberTells(reg: Registry, o: Obj, name: seq<u8>)
    requires Bootable(reg) && o in reg.objects && |TypeList(reg)| < NONE
    ensures var t := ObjType(reg, o);
      && TypeIndex(reg, t) < |TypeList(reg)| && TypeList(reg)[TypeIndex(reg, t)] == t
      && (Low32(TypeIndex(reg, t)) == TypeIdOf(reg, name) <==> Text(reg, t) == name)
  {
    hide Rom, Attrs, Ordered;
    OrderedKeys(set o' | o' in reg.objects :: reg.objects[o']);
    var t := ObjType(reg, o);
    assert t in set o' | o' in reg.objects :: reg.objects[o'];
    assert t in TypeList(reg);
    Low32Small(TypeIndex(reg, t));
    FindNameFinds(reg, TypeList(reg), |TypeList(reg)|, name);
    TypesAreSymbols(reg);
  }

  lemma {:induction false} FindNameFinds(reg: Registry, syms: seq<Sym>, n: nat, name: seq<u8>)
    requires n <= |syms| && n < NONE
    ensures FindName(reg, syms, n, name) == NONE ==> forall i :: 0 <= i < n ==> Text(reg, syms[i]) != name
  {
    if n > 0 {
      FindNameFinds(reg, syms, n - 1, name);
    }
  }

  // What the reader knows about types after the type table, where a system object already
  // handled makes it forget the system type.
  ghost predicate TypesKnown(reg: Registry, systemSeen: bool, sysType: u32, sysIds: seq<u32>, coreType: u32, coreIds: seq<u32>) {
    && |TypeList(reg)| < NONE
    && sysType == (if systemSeen then NONE else TypeIdOf(reg, SYSTEM))
    && IdsOf(reg, TypeIdOf(reg, SYSTEM), SYSTEM_NAMES, sysIds)
    && coreType == TypeIdOf(reg, CPU) && IdsOf(reg, coreType, CORE_NAMES, coreIds)
  }

  lemma IdsRead(reg: Registry, o: Obj, p: nat, names: seq<seq<u8>>, ids: seq<u32>)
    requires Bootable(reg) && ObjectAt(reg, p, o) && TypeIndex(reg, ObjType(reg, o)) < |TypeList(reg)| < NONE
    requires TypeList(reg)[TypeIndex(reg, ObjType(reg, o))] == ObjType(reg, o)
    requires IdsOf(reg, TypeIndex(reg, ObjType(reg, o)), names, ids)
    ensures forall i :: 0 <= i < |names| ==>
      p + 2 + AttrIndex(ids[i]) < |Rom(reg)| && Rom(reg)[p + 2 + AttrIndex(ids[i])] == AttrWord(reg, o, names[i])
  {
    hide Rom, Attrs, ObjType, TypeIndex, TypeList, AttrWord, AttrIndex, WellFormed;
    forall i | 0 <= i < |names|
      ensures p + 2 + AttrIndex(ids[i]) < |Rom(reg)| && Rom(reg)[p + 2 + AttrIndex(ids[i])] == AttrWord(reg, o, names[i])
    {
      ReadAttrIsWord(reg, o, p, ids[i], names[i]);
    }
  }

  method ReadObject(cfg: seq<u32>, p: nat, sysType: u32, sysIds: seq<u32>, coreType: u32, coreIds: seq<u32>, conf: BootConf,
                    ghost reg: Registry, ghost n: nat, ghost conf0: BootConf)
    returns (sysType': u32, conf': BootConf)
    requires Bootable(reg) && cfg == Rom(reg) && n < |ObjList(reg)| && ObjectAt(reg, p, ObjList(reg)[n])
    requires TypesKnown(reg, BootUpTo(reg, n, conf0).0, sysType, sysIds, coreType, coreIds)
    requires conf == BootUpTo(reg, n, conf0).1
    ensures TypesKnown(reg, BootUpTo(reg, n + 1, conf0).0, sysType', sysIds, coreType, coreIds)
    ensures conf' == BootUpTo(reg, n + 1, conf0).1
  {
    hide Rom, Attrs, TypeIndex, TypeList, AttrWord, AttrIndex, ObjType, ObjList, WellFormed, ObjectAt, IdsOf;
    ghost var o := ObjList(reg)[n];
    ObjListed(reg, n);
    ObjectHeader(reg, p, o);
    TypeNumberTells(reg, o, SYSTEM);
    TypeNumberTells(reg, o, CPU);
    Low32Small(TypeIndex(reg, ObjType(reg, o)));
    sysType', conf' := sysType, conf;
    var t := cfg[p + 2];
    if t == sysType {
      IdsRead(reg, o, p, SYSTEM_NAMES, sysIds);
      IdsLength(reg, TypeIdOf(reg, SYSTEM), SYSTEM_NAMES, sysIds);
      assert SYSTEM_NAMES[1] == MASTERFREQ;
      conf' := conf.(masterFreq := cfg[p + 2 + AttrIndex(sysIds[1])]);
      sysType' := NONE;
    } else if t == coreType {
      IdsRead(reg, o, p, CORE_NAMES, coreIds);
      IdsLength(reg, coreType, CORE_NAMES, coreIds);
      assert CORE_NAMES[0] == FREQ && CORE_NAMES[1] == THREADS && CORE_NAMES[2] == FAMILIES;
      var cf := cfg[p + 2 + AttrIndex(coreIds[0])];
      var ttes := cfg[p + 2 + AttrIndex(coreIds[1])];
      var ftes := cfg[p + 2 + AttrIndex(coreIds[2])];
      if conf.coreFreq == NONE {
        conf' := conf.(coreFreq := cf, ttesPerCore := ttes, ftesPerCore := ftes);
      }
    }
  }

  lemma IdsLength(reg: Registry, typ: u32, names: seq<seq<u8>>, ids: seq<u32>)
    requires IdsOf(reg, typ, names, ids)
    ensures |ids| == |names|
  {
  }

  lemma ObjListed(reg: Registry, n: nat)
    requires n < |ObjList(reg)|
    ensures ObjList(reg)[n] in reg.objects
  {
    OrderedKeys(reg.objects.Keys);
    assert ObjList(reg)[n] in ObjList(reg);
  }

  lemma ObjectHeader(reg: Registry, p: nat, o: Obj)
    requires ObjectAt(reg, p, o)
    ensures p + 3 < |Rom(reg)| && Rom(reg)[p + 2] == Low32(TypeIndex(reg, ObjType(reg, o)))
  {
  }

  // How many objects come before block k.
  ghost function ObjectsBefore(reg: Registry, k: nat): (n: nat)
    ensures n <= |ObjList(reg)|
  {
    if k <= FirstObject(reg) then 0
    else if k - FirstObject(reg) <= |ObjList(reg)| then k - FirstObject(reg)
    else |ObjList(reg)|
  }

  // Object o is registered with a type of this name.
  ghost predicate HasType(reg: Registry, o: Obj, name: seq<u8>) {
    o in reg.objects && Text(reg, reg.objects[o]) == name
  }

  ghost predicate FirstSystem(reg: Registry, o: Obj) {
    HasType(reg, o, Bytes("system")) && forall o' :: HasType(reg, o', Bytes("system")) ==> o <= o'
  }

  // A core, unless its frequency is the number that stands for none.
  ghost predicate IsCore(reg: Registry, o: Obj) {
    HasType(reg, o, Bytes("cpu")) && !Given(reg, o, Bytes("freq"), Uint(0xFFFF_FFFF))
  }

  ghost predicate FirstCore(reg: Registry, o: Obj) {
    IsCore(reg, o) && forall o' :: IsCore(reg, o') ==> o <= o'
  }

  // Booting from the image of a registry learns what was registered.
  method SysConfInit(cfg: seq<u32>, conf0: BootConf, ghost reg: Registry) returns (conf: BootConf)
    requires Bootable(reg) && cfg == Rom(reg)
    ensures forall o :: FirstSystem(reg, o) ==> Tells(reg, o, Bytes("masterfreq"), conf.masterFreq)
    ensures conf0.coreFreq == 0xFFFF_FFFF ==> forall o :: FirstCore(reg, o) ==>
      && Tells(reg, o, Bytes("freq"), conf.coreFreq) && Tells(reg, o, Bytes("threads"), conf.ttesPerCore)
      && Tells(reg, o, Bytes("families"), conf.ftesPerCore)
    ensures (forall o :: !HasType(reg, o, Bytes("system"))) ==> conf.masterFreq == conf0.masterFreq
    ensures conf0.coreFreq != 0xFFFF_FFFF || (forall o :: !HasType(reg, o, Bytes("cpu"))) ==>
      conf == conf0.(masterFreq := conf.masterFreq)
  {
    conf := ReadBlocks(cfg, conf0, reg);
    Learned(reg, conf0);
  }

  // The configuration that the objects lead to, in terms of the registry alone.
  lemma Learned(reg: Registry, conf0: BootConf)
    requires Bootable(reg)
    ensures var conf := BootUpTo(reg, |ObjList(reg)|, conf0).1;
      && (forall o :: FirstSystem(reg, o) ==> Tells(reg, o, MASTERFREQ, conf.masterFreq))
      && (conf0.coreFreq == NONE ==> forall o :: FirstCore(reg, o) ==>
            && Tells(reg, o, FREQ, conf.coreFreq) && Tells(reg, o, THREADS, conf.ttesPerCore)
            && Tells(reg, o, FAMILIES, conf.ftesPerCore))
      && ((forall o :: !HasType(reg, o, SYSTEM)) ==> conf.masterFreq == conf0.masterFreq)
      && (conf0.coreFreq != NONE || (forall o :: !HasType(reg, o, CPU)) ==> conf == conf0.(masterFreq := conf.masterFreq))
  {
    hide Bootable, BootUpTo, ObjList, AttrWord, Tells, Text, Given;
    forall o | FirstSystem(reg, o)
      ensures Tells(reg, o, MASTERFREQ, BootUpTo(reg, |ObjList(reg)|, conf0).1.masterFreq)
    {
      SystemLearned(reg, conf0, o);
    }
    if conf0.coreFreq == NONE {
      forall o | FirstCore(reg, o)
        ensures var conf := BootUpTo(reg, |ObjList(reg)|, conf0).1;
          && Tells(reg, o, FREQ, conf.coreFreq) && Tells(reg, o, THREADS, conf.ttesPerCore)
          && Tells(reg, o, FAMILIES, conf.ftesPerCore)
      {
        CoreLearned(reg, conf0, o);
      }
    }
    NothingLearned(reg, conf0, |ObjList(reg)|);
  }

  lemma SystemLearned(reg: Registry, conf0: BootConf, o: Obj)
    requires Bootable(reg) && FirstSystem(reg, o)
    ensures Tells(reg, o, MASTERFREQ, BootUpTo(reg, |ObjList(reg)|, conf0).1.masterFreq)
  {
    hide Bootable, BootUpTo, ObjList, AttrWord, Tells, Text;
    var i := PlaceOf(reg, o);
    assert forall j :: 0 <= j < i && IsOfType(reg, j, SYSTEM) ==> HasType(reg, ObjList(reg)[j], SYSTEM);
    BootedSystem(reg, |ObjList(reg)|, conf0, i);
    WordTells(reg, o, MASTERFREQ);
  }

  lemma CoreLearned(reg: Registry, conf0: BootConf, o: Obj)
    requires Bootable(reg) && FirstCore(reg, o) && conf0.coreFreq == NONE
    ensures var conf := BootUpTo(reg, |ObjList(reg)|, conf0).1;
      && Tells(reg, o, FREQ, conf.coreFreq) && Tells(reg, o, THREADS, conf.ttesPerCore)
      && Tells(reg, o, FAMILIES, conf.ftesPerCore)
  {
    hide Bootable, BootUpTo, ObjList, AttrWord, Tells, Text, Given;
    var i := PlaceOf(reg, o);
    forall j: nat | j <= i
      ensures Counts(reg, j) <==> IsCore(reg, ObjList(reg)[j])
    {
      ObjListed(reg, j);
      FrequencyMissing(reg, ObjList(reg)[j]);
    }
    BootedCore(reg, |ObjList(reg)|, conf0, i);
    WordTells(reg, o, FREQ);
    WordTells(reg, o, THREADS);
    WordTells(reg, o, FAMILIES);
  }

  // The word found for a frequency is the one for none exactly if it was given.
  lemma FrequencyMissing(reg: Registry, o: Obj)
    requires Bootable(reg) && o in reg.objects
    ensures AttrWord(reg, o, FREQ) == NONE <==> Given(reg, o, FREQ, Uint(NONE))
  {
    hide Rom, Attrs, ValueOf, Text, TypeList, TypeIndex, Given, Named, NamedByType, ObjType, WellFormed, Addr, ObjList, Follow;
    var attrs := Attrs(reg, ObjType(reg, o));
    AttrsFew(reg, o);
    FindNameFinds(reg, attrs, |attrs|, FREQ);
    BootableSize(reg);
    if FindName(reg, attrs, |attrs|, FREQ) == NONE {
      NotNamed(reg, o, FREQ);
      NumberOfType(reg, o);
      TypesFew(reg);
    } else {
      var a := attrs[FindName(reg, attrs, |attrs|, FREQ)];
      AttrsAreSymbols(reg, ObjType(reg, o));
      NameIsSymbol(reg, o, a, FREQ);
      ValueInImage(reg, o, a);
    }
  }

  lemma TypesFew(reg: Registry)
    requires Bootable(reg)
    ensures |TypeList(reg)| < NONE
  {
    hide Rom, Attrs, TypeList;
    TypeTableReads(reg);
  }

  // Where an object is among all, and what comes before it.
  lemma PlaceOf(reg: Registry, o: Obj) returns (i: nat)
    requires o in reg.objects
    ensures i < |ObjList(reg)| && ObjList(reg)[i] == o
    ensures forall j :: 0 <= j < i ==> ObjList(reg)[j] in reg.objects && ObjList(reg)[j] < o
  {
    hide Ordered;
    OrderedKeys(reg.objects.Keys);
    assert o in ObjList(reg);
    i :| i < |ObjList(reg)| && ObjList(reg)[i] == o;
    assert forall j :: 0 <= j < i ==> ObjList(reg)[j] in ObjList(reg);
  }

  lemma {:induction false} NothingLearned(reg: Registry, conf0: BootConf, n: nat)
    requires n <= |ObjList(reg)|
    ensures var conf := BootUpTo(reg, n, conf0).1;
      && ((forall o :: !HasType(reg, o, SYSTEM)) ==> conf.masterFreq == conf0.masterFreq)
      && (conf0.coreFreq != NONE || (forall o :: !HasType(reg, o, CPU)) ==> conf == conf0.(masterFreq := conf.masterFreq))
  {
    hide ObjList, AttrWord, Text;
    if n > 0 {
      NothingLearned(reg, conf0, n - 1);
      ObjListed(reg, n - 1);
      assert HasType(reg, ObjList(reg)[n - 1], SYSTEM) <==> IsOfType(reg, n - 1, SYSTEM);
      assert HasType(reg, ObjList(reg)[n - 1], CPU) <==> IsOfType(reg, n - 1, CPU);
    }
  }

  method ReadBlocks(cfg: seq<u32>, conf0: BootConf, ghost reg: Registry) returns (conf: BootConf)
    requires Bootable(reg) && cfg == Rom(reg)
    ensures conf == BootUpTo(reg, |ObjList(reg)|, conf0).1
  {
    hide *;
    ghost var k := 0;
    var p: nat := 1;
    conf := conf0;
    var sysType, coreType := NONE, NONE;
    var sysIds, coreIds: seq<u32> := [], [];
    BootStart(reg, conf0);
    BootableSize(reg);
    while cfg[p] != 0
      invariant BlockReached(reg, k, p) && p < |cfg| == |Rom(reg)| < NONE
      invariant conf == BootUpTo(reg, ObjectsBefore(reg, k), conf0).1
      invariant k > 0 ==> TypesKnown(reg, BootUpTo(reg, ObjectsBefore(reg, k), conf0).0, sysType, sysIds, coreType, coreIds)
      decreases |Blocks(reg)| - k
    {
      NextBlock(reg, k, p);
      if cfg[p] == TAG_TYPETABLE {
        sysType, sysIds, coreType, coreIds := ReadTypes(cfg, p, reg);
        TypesKnownAtStart(reg, conf0, sysType, sysIds, coreType, coreIds);
      } else if cfg[p] == TAG_OBJECT {
        sysType, conf := ReadObject(cfg, p, sysType, sysIds, coreType, coreIds, conf, reg, k - FirstObject(reg), conf0);
      }
      p := cfg[p + 1];
      k := k + 1;
    }
    LastBlock(reg, k, p);
  }

  ghost predicate BlockReached(reg: Registry, k: nat, p: nat) {
    k <= |Blocks(reg)| && p == StartOf(Blocks(reg), k) < |Rom(reg)|
  }

  lemma BootStart(reg: Registry, conf0: BootConf)
    ensures BlockReached(reg, 0, 1) && 1 < |Rom(reg)| && BootUpTo(reg, ObjectsBefore(reg, 0), conf0) == (false, conf0)
  {
    hide Blocks, Links;
    ChainEnd(Blocks(reg));
  }

  lemma BootableSize(reg: Registry)
    requires Bootable(reg)
    ensures |Rom(reg)| < NONE
  {
  }

  lemma FirstBlockAtOne(reg: Registry)
    ensures StartOf(Blocks(reg), 0) == 1
  {
  }

  lemma LastBlock(reg: Registry, k: nat, p: nat)
    requires BlockReached(reg, k, p) && Rom(reg)[p] == 0
    ensures ObjectsBefore(reg, k) == |ObjList(reg)|
  {
    hide Blocks, Rom, StartOf, FirstObject, ObjList, Own, AttrBlock, ObjectBlock, TypeBlock, SymbolBlock, TypeList, Attrs;
    BlockKinds(reg);
    TagsNotZero(reg);
    if k < |Blocks(reg)| {
      BlockPayload(reg, k);
    }
  }

  lemma NextBlock(reg: Registry, k: nat, p: nat)
    requires BlockReached(reg, k, p) && Rom(reg)[p] != 0 && |Rom(reg)| < NONE
    ensures k < |Blocks(reg)| && p + 1 < |Rom(reg)| && BlockReached(reg, k + 1, Rom(reg)[p + 1]) && Rom(reg)[p + 1] < |Rom(reg)|
    ensures Rom(reg)[p] == TAG_TYPETABLE <==> k == 0
    ensures k == 0 ==> p == 1 && ObjectsBefore(reg, 1) == ObjectsBefore(reg, 0) == 0
    ensures if Rom(reg)[p] == TAG_OBJECT
            then FirstObject(reg) <= k < FirstObject(reg) + |ObjList(reg)|
                 && ObjectsBefore(reg, k) == k - FirstObject(reg) && ObjectsBefore(reg, k + 1) == k - FirstObject(reg) + 1
                 && ObjectAt(reg, p, ObjList(reg)[k - FirstObject(reg)])
            else ObjectsBefore(reg, k + 1) == ObjectsBefore(reg, k)
  {
    hide Blocks, Rom, Low32, ObjList, Own, TypeList, ObjectAt, Chain, AttrBlocks;
    ChainEndOf(reg);
    FirstBlockAtOne(reg);
    BlockKinds(reg);
    BlockPayload(reg, k);
    Low32Small(StartOf(Blocks(reg), k + 1));
    if FirstObject(reg) <= k < FirstObject(reg) + |ObjList(reg)| {
      ObjectReads(reg, k);
    }
  }

  lemma ChainEndOf(reg: Registry)
    ensures |Rom(reg)| == StartOf(Blocks(reg), |Blocks(reg)|) + 1 && Rom(reg)[StartOf(Blocks(reg), |Blocks(reg)|)] == 0
  {
    hide Blocks, StartOf, Links;
    ChainEnd(Blocks(reg));
  }

  lemma TypesKnownAtStart(reg: Registry, conf0: BootConf, sysType: u32, sysIds: seq<u32>, coreType: u32, coreIds: seq<u32>)
    requires |TypeList(reg)| < NONE
    requires Known(reg, |TypeList(reg)|, SYSTEM, SYSTEM_NAMES, sysType, sysIds)
    requires Known(reg, |TypeList(reg)|, CPU, CORE_NAMES, coreType, coreIds)
    ensures ObjectsBefore(reg, 1) == 0
    ensures TypesKnown(reg, BootUpTo(reg, 0, conf0).0, sysType, sysIds, coreType, coreIds)
  {
    hide TypeList;
  }
}
