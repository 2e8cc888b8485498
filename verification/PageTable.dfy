// manager/pagetable.c, manager/PTBuilder.c, manager/manager.c: a radix tree of 4 KiB tables kept
// in physical memory, built by WriteEntry and read by WalkPageTable.
module PageTable {
  import opened Arith
  import opened Bits
  import opened PtIndex
  import opened Options

  const PT_SIZE: nat := 4096
  const FRAME_LIMIT: nat := 0x10_0000_0000_0000
  const RESERVED_TABLES: nat := 512

  type u52 = x: nat | x < FRAME_LIMIT

  // One eight-byte entry: the p, t, r, w, x bits and the 52-bit address field of the union pte_t.
  datatype Pte = Pte(p: bool, t: bool, r: bool, w: bool, x: bool, addr: u52)

  const ZERO_PTE := Pte(false, false, false, false, false, 0)

  // What a page entry promises a TLB.
  datatype Mapping = Mapping(frame: u52, r: bool, w: bool, x: bool)

  function MappingOf(e: Pte): Mapping {
    Mapping(e.addr, e.r, e.w, e.x)
  }

  function GetPointer(e: Pte): u64 {
    e.addr * PT_SIZE
  }

  function SetPointer(e: Pte, pointer: u64): Pte {
    e.(addr := pointer / PT_SIZE)
  }

  // The low 12 bits of a pointer do not survive the entry, so only aligned ones come back.
  lemma PointerRoundTrip(e: Pte, pointer: u64)
    ensures GetPointer(SetPointer(e, pointer)) == pointer <==> pointer % PT_SIZE == 0
  {
  }

  // Entry e of the table in frame f, as an index into physical memory.
  function Slot(f: nat, e: nat): nat {
    ENTRIES * f + e
  }

  function At(mem: seq<Pte>, f: nat, e: nat): Pte
    requires e < ENTRIES && ENTRIES * (f + 1) <= |mem|
  {
    mem[Slot(f, e)]
  }

  ghost function Parent(q: seq<nat>): seq<nat>
    requires q != []
  {
    q[..|q| - 1]
  }

  ghost function Child(q: seq<nat>, e: nat): seq<nat> {
    q + [e]
  }

  ghost predicate EntryOk(e: Pte, c: seq<nat>, tables: map<seq<nat>, nat>, pages: map<seq<nat>, Mapping>) {
    && (c in tables <==> e.p && e.t)
    && (c in pages <==> e.p && !e.t)
    && (c in tables ==> e.addr == tables[c])
    && (c in pages ==> MappingOf(e) == pages[c])
  }

  ghost predicate IsChild(q: seq<nat>, tables: map<seq<nat>, nat>) {
    q != [] && q[|q| - 1] < ENTRIES && Parent(q) in tables
  }

  // The tables reachable from the root form a tree: each offset path has at most one table, each
  // table one path, all of them below the bump pointer.
  ghost predicate Shape(root: nat, next: nat, tables: map<seq<nat>, nat>, pages: map<seq<nat>, Mapping>) {
    && next <= FRAME_LIMIT
    && [] in tables && tables[[]] == root
    && (forall q :: q in tables ==> |q| < LEVELS && root <= tables[q] < next)
    && (forall q, q' :: q in tables && q' in tables && tables[q] == tables[q'] ==> q == q')
    && (forall q :: q in tables && q != [] ==> IsChild(q, tables))
    && (forall q :: q in pages ==> IsChild(q, tables))
  }

  // Every entry of every reachable table says what lies beneath it.
  ghost predicate Entries(mem: seq<Pte>, next: nat, tables: map<seq<nat>, nat>, pages: map<seq<nat>, Mapping>)
    requires forall q :: q in tables ==> tables[q] < next
  {
    && ENTRIES * next <= |mem|
    && (forall q, e: nat :: q in tables && e < ENTRIES ==> EntryOk(At(mem, tables[q], e), Child(q, e), tables, pages))
  }

  ghost predicate Tree(mem: seq<Pte>, root: nat, next: nat,
                       tables: map<seq<nat>, nat>, pages: map<seq<nat>, Mapping>)
  {
    Shape(root, next, tables, pages) && Entries(mem, next, tables, pages)
  }

  // Memory after one table was taken at frame `next` and one entry below it was rewritten.
  ghost predicate OneEntryChanged(mem: seq<Pte>, mem': seq<Pte>, next: nat, slot: nat) {
    && |mem'| == |mem|
    && ENTRIES * (next + 1) <= |mem|
    && next < FRAME_LIMIT
    && slot < ENTRIES * next
    && (forall i :: 0 <= i < ENTRIES * next && i != slot ==> mem'[i] == mem[i])
  }

  lemma LinkTable(mem: seq<Pte>, mem': seq<Pte>, root: nat, next: nat,
                  tables: map<seq<nat>, nat>, pages: map<seq<nat>, Mapping>, q: seq<nat>, e: nat)
    requires Tree(mem, root, next, tables, pages)
    requires q in tables && |q| + 1 < LEVELS && e < ENTRIES && !At(mem, tables[q], e).p
    requires OneEntryChanged(mem, mem', next, Slot(tables[q], e))
    requires forall k: nat :: k < ENTRIES ==> At(mem', next, k) == ZERO_PTE
    requires var en := At(mem', tables[q], e); en.p && en.t && en.addr == next
    ensures Child(q, e) !in tables && Child(q, e) !in pages
    ensures Tree(mem', root, next + 1, tables[Child(q, e) := next], pages)
  {
    var c := Child(q, e);
    var tables' := tables[c := next];
    assert EntryOk(At(mem, tables[q], e), c, tables, pages);
    LinkShape(root, next, tables, pages, q, e);
    forall d, k: nat | d in tables' && k < ENTRIES
      ensures EntryOk(At(mem', tables'[d], k), Child(d, k), tables', pages)
    {
      if d == c {
        assert Parent(Child(c, k)) == c && |Child(c, k)| == |c| + 1;
        assert !IsChild(Child(c, k), tables);
        assert At(mem', next, k) == ZERO_PTE;
      } else {
        OtherEntry(mem, mem', root, next, tables, pages, q, e, d, k);
      }
    }
  }

  lemma LinkShape(root: nat, next: nat, tables: map<seq<nat>, nat>, pages: map<seq<nat>, Mapping>, q: seq<nat>, e: nat)
    requires Shape(root, next, tables, pages) && next < FRAME_LIMIT
    requires q in tables && |q| + 1 < LEVELS && e < ENTRIES && Child(q, e) !in tables
    ensures Shape(root, next + 1, tables[Child(q, e) := next], pages)
  {
    var c, tables' := Child(q, e), tables[Child(q, e) := next];
    assert Parent(c) == q && c != [];
    hide Child;
    forall d | d in tables' && d != []
      ensures IsChild(d, tables')
    {
      assert d != c ==> IsChild(d, tables);
    }
    forall d | d in pages
      ensures IsChild(d, tables')
    {
      assert IsChild(d, tables);
    }
  }

  lemma OtherEntry(mem: seq<Pte>, mem': seq<Pte>, root: nat, next: nat,
                   tables: map<seq<nat>, nat>, pages: map<seq<nat>, Mapping>, q: seq<nat>, e: nat, d: seq<nat>, k: nat)
    requires Tree(mem, root, next, tables, pages)
    requires q in tables && e < ENTRIES && d in tables && k < ENTRIES
    requires OneEntryChanged(mem, mem', next, Slot(tables[q], e))
    ensures if Child(d, k) == Child(q, e) then d == q && k == e
            else At(mem', tables[d], k) == At(mem, tables[d], k)
    ensures EntryOk(At(mem, tables[d], k), Child(d, k), tables, pages)
  {
    assert EntryOk(At(mem, tables[d], k), Child(d, k), tables, pages);
    if Child(d, k) == Child(q, e) {
      assert Parent(Child(d, k)) == d && Parent(Child(q, e)) == q;
      assert Child(d, k)[|d|] == k && Child(q, e)[|q|] == e;
    } else {
      assert tables[d] == tables[q] ==> d == q;
      SlotsDiffer(tables[d], k, tables[q], e);
    }
  }

  lemma SlotsDiffer(f: nat, k: nat, g: nat, e: nat)
    requires k < ENTRIES && e < ENTRIES && (f != g || k != e)
    ensures Slot(f, k) != Slot(g, e)
  {
  }

  lemma MapPage(mem: seq<Pte>, mem': seq<Pte>, root: nat, next: nat,
                tables: map<seq<nat>, nat>, pages: map<seq<nat>, Mapping>, q: seq<nat>, e: nat)
    requires Tree(mem, root, next, tables, pages)
    requires q in tables && e < ENTRIES && !At(mem, tables[q], e).p
    requires OneEntryChanged(mem, mem', next, Slot(tables[q], e))
    requires var en := At(mem', tables[q], e); en.p && !en.t
    ensures Child(q, e) !in tables && Child(q, e) !in pages
    ensures Tree(mem', root, next + 1, tables, pages[Child(q, e) := MappingOf(At(mem', tables[q], e))])
  {
    var c := Child(q, e);
    var pages' := pages[c := MappingOf(At(mem', tables[q], e))];
    assert EntryOk(At(mem, tables[q], e), c, tables, pages);
    assert Shape(root, next + 1, tables, pages');
    forall d, k: nat | d in tables && k < ENTRIES
      ensures EntryOk(At(mem', tables[d], k), Child(d, k), tables, pages')
    {
      OtherEntry(mem, mem', root, next, tables, pages, q, e, d, k);
    }
  }

  // The tables added so far lead to q and are at most n levels deep.
  ghost predicate Grown(tables: map<seq<nat>, nat>, tables': map<seq<nat>, nat>, q: seq<nat>, n: int) {
    && (forall p :: p in tables ==> p in tables' && tables'[p] == tables[p])
    && (forall p :: p in tables' && p !in tables ==> p < q && |p| <= n)
  }

  // Whatever hangs in the tree has all the tables above it.
  lemma {:induction false} PrefixClosed(root: nat, next: nat, tables: map<seq<nat>, nat>, pages: map<seq<nat>, Mapping>,
                                        q: seq<nat>, n: nat)
    requires Shape(root, next, tables, pages) && n < |q|
    ensures q in tables || q in pages ==> q[..n] in tables
    decreases |q|
  {
    if (q in tables || q in pages) && n < |q| - 1 {
      PrefixClosed(root, next, tables, pages, Parent(q), n);
      assert Parent(q)[..n] == q[..n];
    }
  }

  lemma AncestorsPresent(mem: seq<Pte>, root: nat, next: nat, tables: map<seq<nat>, nat>, pages: map<seq<nat>, Mapping>,
                         q: seq<nat>, n: nat)
    requires Tree(mem, root, next, tables, pages) && n <= |q|
    ensures [] in tables && tables[[]] == root
    ensures q[..n] !in tables && q[..n] !in pages ==> q !in tables && q !in pages
  {
    assert q[..|q|] == q;
    if n < |q| {
      PrefixClosed(root, next, tables, pages, q, n);
    }
  }

  lemma EntryFacts(mem: seq<Pte>, root: nat, next: nat, tables: map<seq<nat>, nat>, pages: map<seq<nat>, Mapping>,
                   q: seq<nat>, e: nat)
    requires Tree(mem, root, next, tables, pages)
    requires q in tables && e < ENTRIES
    ensures |q| < LEVELS && tables[q] < next <= FRAME_LIMIT && Slot(tables[q], e) < ENTRIES * next <= |mem|
    ensures EntryOk(mem[Slot(tables[q], e)], Child(q, e), tables, pages)
  {
    assert EntryOk(At(mem, tables[q], e), Child(q, e), tables, pages);
  }

  // The first page met below the root on an offset path, from depth n on.
  ghost function Lookup(pages: map<seq<nat>, Mapping>, d: seq<nat>, n: nat): (r: Option<(nat, Mapping)>)
    ensures r.Some? ==> n <= r.value.0 <= |d| && d[..r.value.0] in pages && pages[d[..r.value.0]] == r.value.1
    ensures r.None? ==> forall m :: n <= m <= |d| ==> d[..m] !in pages
    decreases |d| + 1 - n
  {
    if n > |d| then None
    else if d[..n] in pages then Some((n, pages[d[..n]]))
    else Lookup(pages, d, n + 1)
  }

  // Nothing hangs below an absent entry.
  lemma NothingBelow(mem: seq<Pte>, root: nat, next: nat, tables: map<seq<nat>, nat>, pages: map<seq<nat>, Mapping>,
                     d: seq<nat>, n: nat)
    requires Tree(mem, root, next, tables, pages) && n <= |d|
    requires d[..n] !in tables && d[..n] !in pages
    ensures Lookup(pages, d, n) == None
  {
    var found := Lookup(pages, d, n);
    if found.Some? {
      assert d[..found.value.0][..n] == d[..n];
      PrefixClosed(root, next, tables, pages, d[..found.value.0], n);
    }
  }

  // How many of the tables leading to q, its proper prefixes of length n and more, are missing.
  ghost function Missing(tables: map<seq<nat>, nat>, q: seq<nat>, n: nat): nat
    decreases |q| - n
  {
    if n >= |q| then 0 else (if q[..n] in tables then 0 else 1) + Missing(tables, q, n + 1)
  }

  lemma MissingStep(tables: map<seq<nat>, nat>, q: seq<nat>, n: nat)
    ensures n < |q| ==> Missing(tables, q, n) == (if q[..n] in tables then 0 else 1) + Missing(tables, q, n + 1)
    ensures n >= |q| ==> Missing(tables, q, n) == 0
  {
  }

  // They are the levels above q that have no table yet.
  lemma {:induction false} MissingCounts(tables: map<seq<nat>, nat>, q: seq<nat>, n: nat)
    ensures Missing(tables, q, n) == |set m: nat | n <= m < |q| && q[..m] !in tables|
    decreases |q| - n
  {
    var all := set m: nat | n <= m < |q| && q[..m] !in tables;
    if n < |q| {
      MissingCounts(tables, q, n + 1);
      var more := set m: nat | n + 1 <= m < |q| && q[..m] !in tables;
      assert all == if q[..n] in tables then more else more + {n};
    } else {
      assert all == {};
    }
  }

  lemma ChildOfPrefix(q: seq<nat>, n: nat, e: nat)
    requires n < |q| && q[n] == e
    ensures q[..n + 1] == Child(q[..n], e)
  {
  }

  lemma {:induction false} NoneMissing(mem: seq<Pte>, root: nat, next: nat, tables: map<seq<nat>, nat>,
                                       pages: map<seq<nat>, Mapping>, q: seq<nat>, n: nat)
    requires Tree(mem, root, next, tables, pages)
    ensures q in tables || q in pages ==> Missing(tables, q, n) == 0
    decreases |q| - n
  {
    if n < |q| {
      PrefixClosed(root, next, tables, pages, q, n);
      NoneMissing(mem, root, next, tables, pages, q, n + 1);
    }
  }

  ghost predicate NoPageAbove(pages: map<seq<nat>, Mapping>, q: seq<nat>) {
    forall n :: 0 < n < |q| ==> q[..n] !in pages
  }

  lemma NoneAbove(pages: map<seq<nat>, Mapping>, q: seq<nat>, n: nat)
    requires NoPageAbove(pages, q) && 0 < n < |q|
    ensures q[..n] !in pages
  {
  }

  // The code write_entry answers: -32 if something is there already, 0 if the reserve cannot hold
  // the tables on the way, 1 otherwise.
  ghost function Outcome(tables: map<seq<nat>, nat>, pages: map<seq<nat>, Mapping>, free: nat, q: seq<nat>): int {
    if q in tables || q in pages then -32
    else if free < Missing(tables, q, 1) then 0
    else 1
  }

  // How many tables a call takes from the reserve.
  ghost function Taken(tables: map<seq<nat>, nat>, pages: map<seq<nat>, Mapping>, free: nat, q: seq<nat>): nat {
    if q in tables || q in pages then 0
    else if free < Missing(tables, q, 1) then free
    else Missing(tables, q, 1) + 1
  }

  // A new page answers for every path through it; every other path keeps its answer.
  lemma {:induction false} LookupAfterWrite(pages: map<seq<nat>, Mapping>, q: seq<nat>, m: Mapping, d: seq<nat>, n: nat)
    requires NoPageAbove(pages, q) && 0 < n && q != []
    ensures Lookup(pages[q := m], d, n) == if n <= |q| && q <= d then Some((|q|, m)) else Lookup(pages, d, n)
    decreases |d| + 1 - n
  {
    if n <= |d| {
      if q <= d && n <= |q| {
        assert d[..n] == q[..n];
        assert n == |q| ==> d[..n] == q;
      }
      LookupAfterWrite(pages, q, m, d, n + 1);
    }
  }

  // The same in terms of contexts and addresses: mapping a page of size class p for (c0, v0) is
  // seen by exactly the addresses of that context that agree with v0 above the page offset.
  lemma AddressSeesPage(pages: map<seq<nat>, Mapping>, c0: u64, v0: u64, p: nat, m: Mapping, c: u64, v: u64)
    requires InRange(c0, v0) && InRange(c, v) && p <= 4
    requires NoPageAbove(pages, Path(CalculatePtIndex(c0, v0), LEVELS - p))
    ensures var d := Path(CalculatePtIndex(c, v), LEVELS);
      Lookup(pages[Path(CalculatePtIndex(c0, v0), LEVELS - p) := m], d, 1)
      == if c == c0 && Shr(v, 12 + 9 * p) == Shr(v0, 12 + 9 * p) then Some((6 - p, m)) else Lookup(pages, d, 1)
  {
    hide CalculatePtIndex, Path, Shr, NoPageAbove, Lookup;
    var d := Path(CalculatePtIndex(c, v), LEVELS);
    var q := Path(CalculatePtIndex(c0, v0), LEVELS - p);
    SamePage(c, v, c0, v0, p);
    PathPrefix(CalculatePtIndex(c, v), LEVELS - p, LEVELS);
    LookupAfterWrite(pages, q, m, d, 1);
  }

  // What one call of WriteEntry for mapping m at path q does to the reserve and to the tree.
  ghost predicate Written(tables: map<seq<nat>, nat>, pages: map<seq<nat>, Mapping>, free: nat, next: nat,
                          tables': map<seq<nat>, nat>, pages': map<seq<nat>, Mapping>, free': nat, next': nat,
                          q: seq<nat>, m: Mapping, res: int)
  {
    var taken := Taken(tables, pages, free, q);
    && res == Outcome(tables, pages, free, q)
    && pages' == (if res == 1 then pages[q := m] else pages)
    && Grown(tables, tables', q, |q| - 1)
    && next' == next + PT_SIZE * taken
    && free' == (free - taken) % U64_SIZE
  }

  // The page to map would take a table that is no longer there.
  ghost predicate OverdrawsReserve(tables: map<seq<nat>, nat>, pages: map<seq<nat>, Mapping>, free: nat, q: seq<nat>) {
    q !in tables && q !in pages && free == Missing(tables, q, 1)
  }

  // Tables used and tables free add up to the reserve after a call exactly unless its page overdraws
  // it; the count of free tables then wraps around.
  lemma ReserveAccounted(root: nat, tables: map<seq<nat>, nat>, pages: map<seq<nat>, Mapping>, free: u64, next: nat,
                         tables': map<seq<nat>, nat>, pages': map<seq<nat>, Mapping>, free': nat, next': nat,
                         q: seq<nat>, m: Mapping, res: int)
    requires Written(tables, pages, free, next, tables', pages', free', next', q, m, res)
    requires next + PT_SIZE * free == root + PT_SIZE * RESERVED_TABLES
    ensures next' + PT_SIZE * free' == root + PT_SIZE * RESERVED_TABLES <==> !OverdrawsReserve(tables, pages, free, q)
    ensures OverdrawsReserve(tables, pages, free, q) ==> res == 1 && free' == U64_SIZE - 1
  {
    var taken := Taken(tables, pages, free, q);
    if taken <= free {
      ModSmall(free - taken, U64_SIZE);
    }
  }

  // A page of the greatest size does, in a tree of nothing but the root with no table free.
  lemma LastTableOverdrawn(q: seq<nat>)
    requires |q| == 1
    ensures OverdrawsReserve(map[[] := 0], map[], 0, q)
  {
  }

  class PageTableSet {
    const ram: array<Pte>
    var pt0: u64
    var nextTable: u64
    var free: u64
    ghost var tables: map<seq<nat>, nat>
    ghost var pages: map<seq<nat>, Mapping>

    ghost predicate Valid()
      reads this, ram
    {
      && ram.Length < ENTRIES * FRAME_LIMIT
      && pt0 % PT_SIZE == 0 && nextTable % PT_SIZE == 0
      && Tree(ram[..], pt0 / PT_SIZE, nextTable / PT_SIZE, tables, pages)
    }

    // Every table of the reserve is either taken or free.
    ghost predicate Conserved()
      reads this
    {
      nextTable + PT_SIZE * free == pt0 + PT_SIZE * RESERVED_TABLES
    }

    constructor (ram: array<Pte>)
      ensures this.ram == ram
    {
      this.ram := ram;
      pt0, nextTable, free := 0, 0, 0;
      tables, pages := map[], map[];
    }

    method ConstructPt() returns (loc: u64)
      requires nextTable % PT_SIZE == 0
      requires ENTRIES * (nextTable / PT_SIZE + 1) <= ram.Length < ENTRIES * FRAME_LIMIT
      modifies this`nextTable, ram
      ensures loc == old(nextTable) && nextTable == loc + PT_SIZE
      ensures forall k: nat :: k < ENTRIES ==> At(ram[..], loc / PT_SIZE, k) == ZERO_PTE
      ensures forall i :: 0 <= i < ENTRIES * (loc / PT_SIZE) ==> ram[i] == old(ram[i])
    {
      loc := nextTable;
      var f := nextTable / PT_SIZE;
      forall k | ENTRIES * f <= k < ENTRIES * (f + 1) {
        ram[k] := ZERO_PTE;
      }
      nextTable := nextTable + PT_SIZE;
    }

    method SetTableEntry(entry: nat, table: u64)
      requires entry < ram.Length
      modifies ram
      ensures ram[..] == old(ram[..])[entry := old(ram[entry]).(p := true, t := true, addr := table / PT_SIZE)]
    {
      ram[entry] := ram[entry].(p := true, t := true);
      ram[entry] := SetPointer(ram[entry], table);
    }

    method SetPageEntry(entry: nat, dst: u64, r: u8, w: u8, x: u8)
      requires entry < ram.Length
      modifies ram
      ensures ram[..] == old(ram[..])[entry := Pte(true, false, r % 2 == 1, w % 2 == 1, x % 2 == 1, dst / PT_SIZE)]
    {
      ram[entry] := ram[entry].(p := true, t := false);
      ram[entry] := ram[entry].(r := r % 2 == 1, w := w % 2 == 1, x := x % 2 == 1);
      ram[entry] := SetPointer(ram[entry], dst);
    }

    // Take the next table and hang it under the absent entry e of table q.
    method LinkNext(ghost q: seq<nat>, e: nat, entry: nat) returns (table: u64)
      requires Valid() && free > 0
      requires q in tables && |q| + 1 < LEVELS && e < ENTRIES && entry == Slot(tables[q], e)
      requires entry < ram.Length && !ram[entry].p
      requires ENTRIES * (nextTable / PT_SIZE + 1) <= ram.Length
      modifies this`nextTable, this`free, this`tables, ram
      ensures Valid()
      ensures Child(q, e) !in old(tables) && Child(q, e) !in pages
      ensures tables == old(tables)[Child(q, e) := old(nextTable) / PT_SIZE]
      ensures table == old(nextTable)
      ensures nextTable == old(nextTable) + PT_SIZE && free == old(free) - 1
    {
      hide Tree;
      EntryFacts(ram[..], pt0 / PT_SIZE, nextTable / PT_SIZE, tables, pages, q, e);
      ghost var mem := ram[..];
      ghost var frame := nextTable / PT_SIZE;
      table := ConstructPt();
      free := free - 1;
      ghost var mid := ram[..];
      SetTableEntry(entry, table);
      assert forall k: nat :: k < ENTRIES ==> At(ram[..], frame, k) == At(mid, frame, k);
      LinkTable(mem, ram[..], pt0 / PT_SIZE, frame, tables, pages, q, e);
      tables := tables[Child(q, e) := frame];
    }

    // Turn the absent entry e of table q into a page; this takes a table too, and leaves it unused.
    method MapNext(ghost q: seq<nat>, e: nat, entry: nat, dst: u64, r: u8, w: u8, x: u8)
      requires Valid()
      requires q in tables && e < ENTRIES && entry == Slot(tables[q], e)
      requires entry < ram.Length && !ram[entry].p
      requires ENTRIES * (nextTable / PT_SIZE + 1) <= ram.Length
      modifies this`nextTable, this`free, this`pages, ram
      ensures Valid()
      ensures Child(q, e) !in tables && Child(q, e) !in old(pages)
      ensures pages == old(pages)[Child(q, e) := Mapping(dst / PT_SIZE, r % 2 == 1, w % 2 == 1, x % 2 == 1)]
      ensures nextTable == old(nextTable) + PT_SIZE && free == (old(free) - 1) % U64_SIZE
    {
      hide Tree;
      EntryFacts(ram[..], pt0 / PT_SIZE, nextTable / PT_SIZE, tables, pages, q, e);
      ghost var mem := ram[..];
      ghost var frame := nextTable / PT_SIZE;
      var _ := ConstructPt();
      free := (free - 1) % U64_SIZE;
      SetPageEntry(entry, dst, r, w, x);
      MapPage(mem, ram[..], pt0 / PT_SIZE, frame, tables, pages, q, e);
      pages := pages[Child(q, e) := MappingOf(ram[entry])];
    }

    // Follow entry e of table q to the table below, making that table first if the entry is absent
    // and the reserve is not exhausted. A page is followed as if it were a table.
    method Descend(ghost q: seq<nat>, e: nat, entry: nat) returns (ok: bool, table: u64)
      requires Valid()
      requires q in tables && |q| + 1 < LEVELS && e < ENTRIES && entry == Slot(tables[q], e)
      requires Child(q, e) in tables || Child(q, e) in pages || free == 0 || ENTRIES * (nextTable / PT_SIZE + 1) <= ram.Length
      modifies this`nextTable, this`free, this`tables, ram
      ensures Valid()
      ensures ok <==> Child(q, e) in old(tables) || Child(q, e) in pages || old(free) > 0
      ensures Child(q, e) in pages ==> table == PT_SIZE * pages[Child(q, e)].frame
      ensures ok && Child(q, e) !in pages ==> Child(q, e) in tables && table == PT_SIZE * tables[Child(q, e)]
      ensures Child(q, e) in old(tables) || Child(q, e) in pages || !ok ==> unchanged(this) && unchanged(ram)
      ensures ok && Child(q, e) !in old(tables) && Child(q, e) !in pages ==>
        && tables == old(tables)[Child(q, e) := old(nextTable) / PT_SIZE]
        && nextTable == old(nextTable) + PT_SIZE && free == old(free) - 1
    {
      hide Tree;
      EntryFacts(ram[..], pt0 / PT_SIZE, nextTable / PT_SIZE, tables, pages, q, e);
      if ram[entry].p {
        return true, GetPointer(ram[entry]);
      }
      if free == 0 {
        return false, 0;
      }
      table := LinkNext(q, e, entry);
      ok := true;
    }

    // One level of the way down to q, from its prefix of length n.
    method FollowPath(key: u64, i: nat, ghost q: seq<nat>, above: u64) returns (ok: bool, table: u64)
      requires Valid() && i < LEVELS && LEVELS - i < |q| <= LEVELS && q == Path(key, |q|) && NoPageAbove(pages, q)
      requires var n := LEVELS - 1 - i; q[..n] in tables && above == PT_SIZE * tables[q[..n]]
      requires q[..LEVELS - i] in tables || free == 0 || ENTRIES * (nextTable / PT_SIZE + 1) <= ram.Length
      modifies this`nextTable, this`free, this`tables, ram
      ensures Valid()
      ensures var c := q[..LEVELS - i];
        && (ok <==> c in old(tables) || old(free) > 0)
        && (ok ==> c in tables && table == PT_SIZE * tables[c])
        && (c in old(tables) || !ok ==> unchanged(this) && unchanged(ram))
        && (c !in old(tables) ==> q !in old(tables) && q !in pages)
        && (ok && c !in old(tables) ==>
              && tables == old(tables)[c := old(nextTable) / PT_SIZE]
              && nextTable == old(nextTable) + PT_SIZE && free == old(free) - 1)
    {
      hide Tree, Path, Child, NoPageAbove;
      ghost var n := LEVELS - 1 - i;
      var ptIndex := GetIndexSection(key, i);
      var entry := Slot(above / PT_SIZE, ptIndex);
      ChildOfPrefix(q, n, ptIndex);
      NoneAbove(pages, q, n + 1);
      EntryFacts(ram[..], pt0 / PT_SIZE, nextTable / PT_SIZE, tables, pages, q[..n], ptIndex);
      AncestorsPresent(ram[..], pt0 / PT_SIZE, nextTable / PT_SIZE, tables, pages, q, n + 1);
      ok, table := Descend(q[..n], ptIndex, entry);
    }

    // The level loop above the target level, where q is the offset path to build.
    method ReachTable(key: u64, pageSize: nat, ghost q: seq<nat>) returns (ok: bool, table: u64)
      requires Valid() && pageSize < LEVELS
      requires q == Path(key, LEVELS - pageSize) && NoPageAbove(pages, q)
      requires ENTRIES * (nextTable / PT_SIZE + Min(free, Missing(tables, q, 1))) <= ram.Length
      modifies this`nextTable, this`free, this`tables, ram
      ensures Valid()
      ensures var missing := Missing(old(tables), q, 1);
        && (ok <==> missing <= old(free))
        && nextTable == old(nextTable) + PT_SIZE * Min(old(free), missing)
        && free == old(free) - Min(old(free), missing)
        && (missing == 0 ==> unchanged(this) && unchanged(ram))
        && (missing > 0 ==> q !in old(tables) && q !in old(pages))
        && Grown(old(tables), tables, q, |q| - 1)
        && (ok ==> Parent(q) in tables && table == PT_SIZE * tables[Parent(q)])
    {
      hide Tree, Path, Missing, Child, NoPageAbove;
      MissingStep(tables, q, |q|);
      table := pt0;
      var i := LEVELS - 1;
      AncestorsPresent(ram[..], pt0 / PT_SIZE, nextTable / PT_SIZE, tables, pages, [], 0);
      ghost var made := 0;
      while i > pageSize
        invariant pageSize <= i < LEVELS
        invariant Valid() && pages == old(pages)
        invariant q[..LEVELS - 1 - i] in tables && table == PT_SIZE * tables[q[..LEVELS - 1 - i]]
        invariant made + Missing(old(tables), q, LEVELS - i) == Missing(old(tables), q, 1)
        invariant made <= old(free)
        invariant nextTable == old(nextTable) + PT_SIZE * made && free == old(free) - made
        invariant made == 0 ==> unchanged(this) && unchanged(ram)
        invariant made > 0 ==> q !in old(tables) && q !in old(pages)
        invariant Grown(old(tables), tables, q, LEVELS - 1 - i)
      {
        ghost var n := LEVELS - 1 - i;
        MissingStep(old(tables), q, n + 1);
        ghost var present := q[..n + 1] in tables;
        ok, table := FollowPath(key, i, q, table);
        if !ok {
          return;
        }
        made := if present then made else made + 1;
        i := i - 1;
      }
      ok := true;
      assert q[..LEVELS - 1 - i] == Parent(q);
    }

    // The level loop at the target level: one more table is taken here without asking the reserve.
    method PutPage(key: u64, pageSize: nat, ghost q: seq<nat>, table: u64, dst: u64, r: u8, w: u8, x: u8) returns (res: int)
      requires Valid() && pageSize < LEVELS
      requires q == Path(key, LEVELS - pageSize)
      requires Parent(q) in tables && table == PT_SIZE * tables[Parent(q)]
      requires q in tables || q in pages || ENTRIES * (nextTable / PT_SIZE + 1) <= ram.Length
      modifies this`nextTable, this`free, this`pages, ram
      ensures Valid()
      ensures res == if q in tables || q in old(pages) then -32 else 1
      ensures res == -32 ==> unchanged(this) && unchanged(ram)
      ensures res == 1 ==>
        && pages == old(pages)[q := Mapping(dst / PT_SIZE, r % 2 == 1, w % 2 == 1, x % 2 == 1)]
        && nextTable == old(nextTable) + PT_SIZE && free == (old(free) - 1) % U64_SIZE
    {
      hide Tree, Path;
      var ptIndex := GetIndexSection(key, pageSize);
      var entry := Slot(table / PT_SIZE, ptIndex);
      assert q == Child(Parent(q), ptIndex);
      EntryFacts(ram[..], pt0 / PT_SIZE, nextTable / PT_SIZE, tables, pages, Parent(q), ptIndex);
      if ram[entry].p {
        return -32;
      }
      MapNext(Parent(q), ptIndex, entry, dst, r, w, x);
      return 1;
    }

    method WriteEntry(key: u64, dst: u64, pageSize: nat, r: u8, w: u8, x: u8) returns (res: int)
      requires Valid()
      requires pageSize < 0x8000_0000
      requires pageSize < LEVELS ==>
        var q := Path(key, LEVELS - pageSize);
        && NoPageAbove(pages, q)
        && ENTRIES * (nextTable / PT_SIZE + Taken(tables, pages, free, q)) <= ram.Length
      modifies this`nextTable, this`free, this`tables, this`pages, ram
      ensures Valid()
      ensures pageSize >= LEVELS ==> res == 1 && unchanged(this) && unchanged(ram)
      ensures pageSize < LEVELS ==>
        Written(old(tables), old(pages), old(free), old(nextTable), tables, pages, free, nextTable,
                Path(key, LEVELS - pageSize), Mapping(dst / PT_SIZE, r % 2 == 1, w % 2 == 1, x % 2 == 1), res)
      ensures pageSize < LEVELS ==>
        var q, missing := Path(key, LEVELS - pageSize), Missing(old(tables), Path(key, LEVELS - pageSize), 1);
        && res == (if q in old(tables) || q in old(pages) then -32 else if old(free) < missing then 0 else 1)
        && pages == (if res == 1 then old(pages)[q := Mapping(dst / 4096, r % 2 == 1, w % 2 == 1, x % 2 == 1)] else old(pages))
        && nextTable == old(nextTable) + 4096 * (if res == -32 then 0 else if res == 0 then old(free) else missing + 1)
      ensures res == -32 ==> unchanged(this) && unchanged(ram)
    {
      hide Tree, Path, Missing, NoPageAbove;
      if pageSize >= LEVELS {
        return 1;  // the level loop has nothing to do
      }
      ghost var q: seq<nat> := Path(key, LEVELS - pageSize);
      NoneMissing(ram[..], pt0 / PT_SIZE, nextTable / PT_SIZE, tables, pages, q, 1);
      var ok, table := ReachTable(key, pageSize, q);
      if !ok {
        return 0;
      }
      res := PutPage(key, pageSize, q, table, dst, r, w, x);
    }

    // Follow the tables down from the root until an entry that is not a table. `entry` is the
    // memory index of the last entry read, `levels` how many were read.
    method WalkPageTable(key: u64) returns (res: int, entry: nat, levels: nat)
      requires Valid()
      ensures res == 0 || res == 1
      ensures 1 <= levels <= LEVELS && entry < ram.Length
      ensures res == 1 ==> Lookup(pages, Path(key, LEVELS), 1) == Some((levels, MappingOf(ram[entry])))
      ensures res == 0 ==> Lookup(pages, Path(key, LEVELS), 1) == None
    {
      hide Tree, Path, GetIndexSection, WalkOffset;
      ghost var d := Path(key, LEVELS);
      AncestorsPresent(ram[..], pt0 / PT_SIZE, nextTable / PT_SIZE, tables, pages, [], 0);
      assert d[..0] == [];
      var t := pt0;
      var len := PTS_INDEX_WIDTH;
      levels, entry := 0, 0;
      while len >= PT_INDEX_WIDTH
        invariant levels < LEVELS && len == PTS_INDEX_WIDTH - PT_INDEX_WIDTH * levels
        invariant d[..levels] in tables && t == PT_SIZE * tables[d[..levels]]
        invariant Lookup(pages, d, 1) == Lookup(pages, d, levels + 1)
      {
        var offset := WalkOffset(key, len);
        WalkOffsetIsSection(key, levels);
        entry := Slot(t / PT_SIZE, offset);
        assert d[..levels + 1] == Child(d[..levels], offset);
        EntryFacts(ram[..], pt0 / PT_SIZE, nextTable / PT_SIZE, tables, pages, d[..levels], offset);
        len := len - PT_INDEX_WIDTH;
        levels := levels + 1;
        if !ram[entry].p {
          NothingBelow(ram[..], pt0 / PT_SIZE, nextTable / PT_SIZE, tables, pages, d, levels);
          return 0, entry, levels;
        }
        if !ram[entry].t {
          return 1, entry, levels;
        }
        t := GetPointer(ram[entry]);
        EntryFacts(ram[..], pt0 / PT_SIZE, nextTable / PT_SIZE, tables, pages, d[..levels], 0);
      }
      assert false;
      res := -16;
    }

    // Reserve 2 MiB worth of tables at p, build the root, and map the page at vBase to it. The
    // size class written is 0, a single 4 KiB page.
    method InitPtSet(p: u64, contextId: u64, vBase: u64) returns (res: int)
      requires p % PT_SIZE == 0
      requires ENTRIES * (p / PT_SIZE + RESERVED_TABLES) <= ram.Length < ENTRIES * FRAME_LIMIT
      modifies this, ram
      ensures Valid() && Conserved() && pt0 == p
      ensures res == 1 && free == RESERVED_TABLES - 7
      ensures pages == map[Path(CalculatePtIndex(contextId, vBase), LEVELS) := Mapping(p / PT_SIZE, true, true, false)]
    {
      hide Path, Tree, CalculatePtIndex, Missing, Lookup, NoPageAbove;
      pt0, nextTable := p, p;
      free := ReserveSize();
      var _ := ConstructPt();
      free := free - 1;
      tables, pages := map[[] := p / PT_SIZE], map[];
      EmptyTree(ram[..], p / PT_SIZE);
      ghost var q: seq<nat> := Path(CalculatePtIndex(contextId, vBase), LEVELS);
      AllMissing(p / PT_SIZE, q, 1);
      EmptyHasNoPages(q);
      assert Outcome(tables, pages, free, q) == 1 && Taken(tables, pages, free, q) == 6;
      res := WriteEntry(CalculatePtIndex(contextId, vBase), p, 0, 1, 1, 0);
    }
  }

  // 1 << (VADDR_LSO + INITIAL_RESERVE_LVL_OFFSET * PT_INDEX_WIDTH - log2(sizeof(pt_t)))
  method ReserveSize() returns (n: u64)
    ensures n == RESERVED_TABLES
  {
    var tableBits := QuickLog2(PT_SIZE);
    Log2OfTwelve(tableBits);
    Pow2Values();
    ShlOne(VADDR_LSO + PT_INDEX_WIDTH - tableBits);
    n := Shl(1, VADDR_LSO + PT_INDEX_WIDTH - tableBits);
  }

  lemma {:induction false} ShlOne(n: nat)
    ensures Shl(1, n) == Pow2(n)
  {
    if n > 0 {
      ShlOne(n - 1);
    }
  }

  lemma EmptyHasNoPages(q: seq<nat>)
    ensures NoPageAbove(map[], q)
  {
  }

  lemma Log2OfTwelve(n: nat)
    requires Pow2(n) <= PT_SIZE < Pow2(n + 1)
    ensures n == 12
  {
    Pow2Values();
    if n > 12 {
      Pow2Monotone(13, n);
    } else if n < 12 {
      Pow2Monotone(n + 1, 12);
    }
  }

  lemma EmptyTree(mem: seq<Pte>, f: nat)
    requires f < FRAME_LIMIT && ENTRIES * (f + 1) <= |mem|
    requires forall k: nat :: k < ENTRIES ==> At(mem, f, k) == ZERO_PTE
    ensures Tree(mem, f, f + 1, map[[] := f], map[])
  {
  }

  lemma {:induction false} AllMissing(f: nat, q: seq<nat>, n: nat)
    requires 0 < n <= |q|
    ensures Missing(map[[] := f], q, n) == |q| - n
    decreases |q| - n
  {
    if n < |q| {
      AllMissing(f, q, n + 1);
    }
  }

  // The position of the highest set bit, by shifting it out.
  method QuickLog2(x: nat) returns (res: nat)
    ensures x == 0 ==> res == 0
    ensures x > 0 ==> Pow2(res) <= x < Pow2(res + 1)
  {
    var v := x;
    res := 0;
    while v / 2 > 0
      invariant x == 0 ==> v == 0 && res == 0
      invariant x > 0 ==> v > 0 && v * Pow2(res) <= x < (v + 1) * Pow2(res)
      decreases v
    {
      HalvedBounds(v, x, res);
      v := v / 2;
      res := res + 1;
    }
  }

  lemma HalvedBounds(v: nat, x: nat, n: nat)
    requires v * Pow2(n) <= x < (v + 1) * Pow2(n)
    ensures v / 2 * Pow2(n + 1) <= x < (v / 2 + 1) * Pow2(n + 1)
  {
    var P := Pow2(n);
    assert v / 2 * (2 * P) == v / 2 * 2 * P;
    MulLe(v / 2 * 2, v, P);
    MulLe(v + 1, (v / 2 + 1) * 2, P);
  }
}
