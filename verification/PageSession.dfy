// manager/PTBuilder.c, manager/manager.c: the page tables over a run of mappings, made by a caller
// that looks before it asks for one.
module PageSession {
  import opened Arith
  import opened Bits
  import opened Options
  import opened PtIndex
  import opened PageTable
  import opened MissHandler

  datatype Call = Call(contextId: u64, vaddr: u64, dst: u64, pageSize: nat, r: u8, w: u8, x: u8)

  function KeyOf(c: Call): u64 {
    CalculatePtIndex(c.contextId, c.vaddr)
  }

  // Where the page of a call goes, and what it maps.
  function PathOf(c: Call): seq<nat>
    requires c.pageSize < LEVELS
  {
    Path(KeyOf(c), LEVELS - c.pageSize)
  }

  function MappingFor(c: Call): Mapping {
    Mapping(c.dst / PT_SIZE, c.r % 2 == 1, c.w % 2 == 1, c.x % 2 == 1)
  }

  // The tables as initialization leaves them and every run keeps them: a tree of pages that a
  // refill can express, with every table of the reserve either taken or free.
  ghost predicate Managed(pts: PageTableSet)
    reads pts, pts.ram
  {
    && pts.Valid() && pts.Conserved() && KnownSizes(pts.pages)
    && ENTRIES * (pts.pt0 / PT_SIZE + RESERVED_TABLES) <= pts.ram.Length
  }

  lemma {:induction false} MissingBound(tables: map<seq<nat>, nat>, q: seq<nat>, n: nat)
    requires n <= |q|
    ensures Missing(tables, q, n) <= |q| - n
    decreases |q| - n
  {
    if n < |q| {
      MissingBound(tables, q, n + 1);
    }
  }

  // With as many tables free as the path is long, a call takes what it needs and no more.
  lemma RoomIsEnough(tables: map<seq<nat>, nat>, pages: map<seq<nat>, Mapping>, free: u64, pt0: nat, next: nat, q: seq<nat>)
    requires q != [] && |q| <= free && pt0 % PT_SIZE == 0 && next % PT_SIZE == 0
    requires next + PT_SIZE * free == pt0 + PT_SIZE * RESERVED_TABLES
    ensures Missing(tables, q, 1) < free && Taken(tables, pages, free, q) <= free
    ensures next / PT_SIZE + Taken(tables, pages, free, q) <= pt0 / PT_SIZE + RESERVED_TABLES
  {
    MissingBound(tables, q, 1);
  }

  // What the walk finds tells whether a page lies above a path.
  lemma FoundAbove(pages: map<seq<nat>, Mapping>, key: u64, n: nat)
    requires 0 < n <= LEVELS
    ensures var found := Lookup(pages, Path(key, LEVELS), 1);
      NoPageAbove(pages, Path(key, n)) <==> found.None? || found.value.0 >= n
  {
    var d := Path(key, LEVELS);
    forall m | 0 < m < n
      ensures Path(key, n)[..m] == d[..m]
    {
      PathPrefix(key, m, n);
      PathPrefix(key, m, LEVELS);
    }
    FirstFound(pages, d, 1);
  }

  lemma {:induction false} FirstFound(pages: map<seq<nat>, Mapping>, d: seq<nat>, n: nat)
    ensures var found := Lookup(pages, d, n); found.Some? ==> forall m :: n <= m < found.value.0 ==> d[..m] !in pages
    decreases |d| + 1 - n
  {
    if n <= |d| {
      FirstFound(pages, d, n + 1);
    }
  }

  // Map a page of one of the three sizes, unless one lies above it or the reserve runs low.
  method MapIfClear(pts: PageTableSet, c: Call) returns (res: Option<int>)
    requires Managed(pts)
    modifies pts, pts.ram
    ensures Managed(pts) && pts.pt0 == old(pts.pt0)
    ensures res.Some? <==>
      c.pageSize <= 2 && old(pts.free) >= LEVELS - c.pageSize && NoPageAbove(old(pts.pages), PathOf(c))
    ensures res.Some? ==> var q := PathOf(c);
      && res.value == (if q in old(pts.tables) || q in old(pts.pages) then -32 else 1)
      && pts.pages == if res.value == 1 then old(pts.pages)[q := MappingFor(c)]
                      else old(pts.pages)
    ensures res.None? ==> pts.pages == old(pts.pages)
  {
    hide Tree, Path, Missing, NoPageAbove, Lookup, Taken;
    if c.pageSize > 2 || pts.free < LEVELS - c.pageSize {
      return None;
    }
    var found, _, levels := pts.WalkPageTable(KeyOf(c));
    FoundAbove(pts.pages, KeyOf(c), LEVELS - c.pageSize);
    if found == 1 && levels < LEVELS - c.pageSize {
      return None;
    }
    var code := MapClear(pts, c);
    res := Some(code);
  }

  method MapClear(pts: PageTableSet, c: Call) returns (res: int)
    requires Managed(pts) && c.pageSize <= 2 && pts.free >= LEVELS - c.pageSize
    requires NoPageAbove(pts.pages, PathOf(c))
    modifies pts, pts.ram
    ensures Managed(pts) && pts.pt0 == old(pts.pt0)
    ensures var q := PathOf(c);
      && res == (if q in old(pts.tables) || q in old(pts.pages) then -32 else 1)
      && pts.pages == if res == 1 then old(pts.pages)[q := MappingFor(c)]
                      else old(pts.pages)
  {
    hide Tree, Path, Missing, NoPageAbove, Taken, Lookup, Grown;
    ghost var q: seq<nat> := PathOf(c);
    ghost var tables, pages, free, next := pts.tables, pts.pages, pts.free, pts.nextTable;
    RoomIsEnough(tables, pages, free, pts.pt0, next, q);
    res := pts.WriteEntry(KeyOf(c), c.dst, c.pageSize, c.r, c.w, c.x);
    ReserveAccounted(pts.pt0, tables, pages, free, next, pts.tables, pts.pages, pts.free, pts.nextTable, q,
                     MappingFor(c), res);
  }

  // ----- runs

  predicate Succeeded(c: Call, res: Option<int>) {
    res == Some(1) && c.pageSize <= 2
  }

  // The pages after the first n calls of a run, given their results: each call that succeeded has
  // added its page.
  ghost function PagesAfter(pages: map<seq<nat>, Mapping>, calls: seq<Call>, results: seq<Option<int>>, n: nat): map<seq<nat>, Mapping>
    requires n <= |calls| && n <= |results|
  {
    if n == 0 then pages
    else
      var before := PagesAfter(pages, calls, results, n - 1);
      if Succeeded(calls[n - 1], results[n - 1]) then before[PathOf(calls[n - 1]) := MappingFor(calls[n - 1])] else before
  }

  // A call only succeeds where nothing is mapped, at its place or above it.
  ghost predicate RanClear(pages: map<seq<nat>, Mapping>, calls: seq<Call>, results: seq<Option<int>>) {
    && |results| <= |calls|
    && forall n: nat :: n < |results| && Succeeded(calls[n], results[n]) ==> WasClear(pages, calls, results, n)
  }

  ghost predicate WasClear(pages: map<seq<nat>, Mapping>, calls: seq<Call>, results: seq<Option<int>>, n: nat)
    requires n < |calls| && n <= |results| && calls[n].pageSize <= 2
  {
    var before, q := PagesAfter(pages, calls, results, n), PathOf(calls[n]);
    q !in before && NoPageAbove(before, q)
  }

  // Any run: the tree stays managed, so that misses can be answered at any time, and its pages are
  // the old ones with those of the successful calls.
  method MapPages(pts: PageTableSet, calls: seq<Call>) returns (results: seq<Option<int>>)
    requires Managed(pts)
    modifies pts, pts.ram
    ensures Managed(pts) && pts.pt0 == old(pts.pt0)
    ensures |results| == |calls| && RanClear(old(pts.pages), calls, results)
    ensures pts.pages == PagesAfter(old(pts.pages), calls, results, |calls|)
  {
    hide Managed, PathOf, NoPageAbove;
    results := [];
    for i := 0 to |calls|
      invariant Managed(pts) && pts.pt0 == old(pts.pt0)
      invariant |results| == i && RanClear(old(pts.pages), calls, results)
      invariant pts.pages == PagesAfter(old(pts.pages), calls, results, i)
    {
      var res := MapIfClear(pts, calls[i]);
      RunOneMore(old(pts.pages), calls, results, res);
      results := results + [res];
    }
  }

  lemma {:induction false} SameBefore(pages: map<seq<nat>, Mapping>, calls: seq<Call>, results: seq<Option<int>>, res: Option<int>, n: nat)
    requires n <= |results| <= |calls|
    ensures PagesAfter(pages, calls, results + [res], n) == PagesAfter(pages, calls, results, n)
  {
    if n > 0 {
      SameBefore(pages, calls, results, res, n - 1);
    }
  }

  lemma RunOneMore(pages: map<seq<nat>, Mapping>, calls: seq<Call>, results: seq<Option<int>>, res: Option<int>)
    requires RanClear(pages, calls, results) && |results| < |calls|
    requires var n := |results|; Succeeded(calls[n], res) ==> WasClear(pages, calls, results, n)
    ensures RanClear(pages, calls, results + [res])
    ensures PagesAfter(pages, calls, results + [res], |results|) == PagesAfter(pages, calls, results, |results|)
  {
    hide PagesAfter, PathOf, NoPageAbove;
    forall n: nat | n <= |results|
      ensures PagesAfter(pages, calls, results + [res], n) == PagesAfter(pages, calls, results, n)
    {
      SameBefore(pages, calls, results, res, n);
    }
    forall n: nat | n < |results| + 1 && Succeeded(calls[n], (results + [res])[n])
      ensures WasClear(pages, calls, results + [res], n)
    {
      assert n < |results| ==> WasClear(pages, calls, results, n);
    }
  }

  // The last successful call whose page contains an address answers for it; without one, the tables
  // answer as before the run.
  ghost function AnswerAfter(pages: map<seq<nat>, Mapping>, calls: seq<Call>, results: seq<Option<int>>, n: nat,
                             c: u64, v: u64): Option<(nat, Mapping)>
    requires n <= |calls| && n <= |results|
  {
    if n == 0 then Lookup(pages, Path(CalculatePtIndex(c, v), LEVELS), 1)
    else if Succeeded(calls[n - 1], results[n - 1]) && InPage(calls[n - 1], c, v) then
      var call := calls[n - 1];
      Some((6 - call.pageSize, Mapping(call.dst / 4096, call.r % 2 == 1, call.w % 2 == 1, call.x % 2 == 1)))
    else AnswerAfter(pages, calls, results, n - 1, c, v)
  }

  // The context of the call, and an address that agrees with its above the page offset.
  predicate InPage(call: Call, c: u64, v: u64)
    requires call.pageSize <= 2
  {
    c == call.contextId && Shr(v, 12 + 9 * call.pageSize) == Shr(call.vaddr, 12 + 9 * call.pageSize)
  }

  lemma {:induction false} AddressAfterRun(pages: map<seq<nat>, Mapping>, calls: seq<Call>, results: seq<Option<int>>, n: nat,
                                           c: u64, v: u64)
    requires RanClear(pages, calls, results) && n <= |results| && InRange(c, v)
    requires AllInRange(calls)
    ensures Lookup(PagesAfter(pages, calls, results, n), Path(CalculatePtIndex(c, v), LEVELS), 1)
         == AnswerAfter(pages, calls, results, n, c, v)
  {
    hide CalculatePtIndex, Path, Shr, Lookup, NoPageAbove, InRange;
    if n > 0 {
      AddressAfterRun(pages, calls, results, n - 1, c, v);
      var call := calls[n - 1];
      if Succeeded(call, results[n - 1]) {
        assert WasClear(pages, calls, results, n - 1);
        AddressSeesPage(PagesAfter(pages, calls, results, n - 1), call.contextId, call.vaddr, call.pageSize, MappingFor(call), c, v);
      }
    }
  }

  // From initialization through any run of mappings to any miss.
  method Session(ram: array<Pte>, p: u64, contextId: u64, vBase: u64, calls: seq<Call>, msg: MgtMsg, netResult: int)
    returns (pts: PageTableSet, results: seq<Option<int>>, res: int, sentTo: nat)
    requires p % PT_SIZE == 0
    requires ENTRIES * (p / PT_SIZE + RESERVED_TABLES) <= ram.Length < ENTRIES * FRAME_LIMIT
    modifies ram, msg
    ensures Managed(pts) && pts.ram == ram && pts.pt0 == p
    ensures var first := map[Path(CalculatePtIndex(contextId, vBase), LEVELS) := Mapping(p / PT_SIZE, true, true, false)];
      && |results| == |calls| && RanClear(first, calls, results) && pts.pages == PagesAfter(first, calls, results, |calls|)
    ensures res == netResult && sentTo == old(msg.part0) / 0x1_0000_0000_0000
    ensures msg.part0 % 8 == 3 && msg.part0 / 8 % 0x100_0000 == old(msg.part0) / 8 % 0x100_0000
    ensures var first := map[Path(CalculatePtIndex(contextId, vBase), LEVELS) := Mapping(p / PT_SIZE, true, true, false)];
      var c: u64 := old(msg.part0) / 0x1000_0000 % 0x1_0000;
      AllInRange(calls) ==> forall v: u64 :: v < 0x1_0000_0000_0000 && Shr(v, 12) == old(msg.part1) ==>
        match AnswerAfter(first, calls, results, |calls|, c, v)
        case None => msg.part0 / 0x800_0000 % 2 == 0
        case Some((levels, m)) =>
          && msg.part0 / 0x800_0000 % 2 == 1 && msg.part0 / 0x1000_0000 % 0x100 == levels - 4 && msg.part1 == m.frame
          && if old(msg.part0) / 0x800_0000 % 2 == 0 then msg.part0 / 0x10_0000_0000 % 2 == Bit(m.x)
             else msg.part0 / 0x10_0000_0000 % 2 == Bit(m.r) && msg.part0 / 0x20_0000_0000 % 2 == Bit(m.w)
  {
    hide Tree, Path, CalculatePtIndex, Lookup, MissKey, GetBits, Shr, AnswerAfter, PagesAfter, RanClear, InRange, Bit;
    pts := new PageTableSet(ram);
    var _ := pts.InitPtSet(p, contextId, vBase);
    results := MapPages(pts, calls);
    res, sentTo := HandleMiss(pts, msg, netResult);
    ghost var first := map[Path(CalculatePtIndex(contextId, vBase), LEVELS) := Mapping(p / PT_SIZE, true, true, false)];
    ghost var c: u64 := old(msg.part0) / 0x1000_0000 % 0x1_0000;
    if AllInRange(calls) {
      forall v: u64 | v < 0x1_0000_0000_0000 && Shr(v, 12) == old(msg.part1)
        ensures Lookup(pts.pages, Path(MissKey(old(msg.part1), c), LEVELS), 1) == AnswerAfter(first, calls, results, |calls|, c, v)
      {
        MissKeyIsBuilderKey(c, v);
        FitsInRange(c, v);
        AddressAfterRun(first, calls, results, |calls|, c, v);
      }
    }
  }

  ghost predicate AllInRange(calls: seq<Call>) {
    forall k :: 0 <= k < |calls| ==> InRange(calls[k].contextId, calls[k].vaddr)
  }

  lemma FitsInRange(contextId: u64, vaddr: u64)
    requires contextId < 0x1_0000 && vaddr < 0x1_0000_0000_0000
    ensures InRange(contextId, vaddr)
  {
    hide Pow2;
    Pow2Values();
  }
}
