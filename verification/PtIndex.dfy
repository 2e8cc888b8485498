// manager/pt_index.c, manager/defines.h: the key under which a page is filed.
module PtIndex {
  import opened Arith
  import opened Bits

  const VADDR_WIDTH: nat := 48
  const VADDR_LSO: nat := 12
  const CONTEXTID_WIDTH: nat := 18
  const PT_INDEX_WIDTH: nat := 9
  const PTS_INDEX_WIDTH: nat := VADDR_WIDTH + CONTEXTID_WIDTH - VADDR_LSO
  const LEVELS: nat := PTS_INDEX_WIDTH / PT_INDEX_WIDTH
  const ENTRIES: nat := 512

  // A key as the hardware page number in the low bits and the context above them.
  function CalculatePtIndex(contextId: u64, vaddr: u64): u64 {
    MakeKeyBound(Shr(vaddr, VADDR_LSO), contextId);
    Or(Shr(vaddr, VADDR_LSO), Shl(contextId, VADDR_WIDTH - VADDR_LSO) % U64_SIZE)
  }

  lemma MakeKeyBound(page: u64, contextId: u64)
    ensures Or(page, Shl(contextId, VADDR_WIDTH - VADDR_LSO) % U64_SIZE) < U64_SIZE
  {
    Pow2Values();
    OrBound(page, Shl(contextId, VADDR_WIDTH - VADDR_LSO) % U64_SIZE, 64);
  }

  // The mask ~(UINT64_MAX << 9) keeps the low nine bits.
  function GetIndexSection(index: u64, section: nat): (r: nat)
    ensures r < ENTRIES
  {
    Shr(index, PT_INDEX_WIDTH * section) % ENTRIES
  }

  // The table offsets met on the way down, from the root: the first n of them.
  function Path(key: u64, n: nat): (p: seq<nat>)
    requires n <= LEVELS
    ensures |p| == n
    ensures forall k :: 0 <= k < n ==> p[k] == GetIndexSection(key, LEVELS - 1 - k)
  {
    if n == 0 then [] else Path(key, n - 1) + [GetIndexSection(key, LEVELS - n)]
  }

  lemma PathPrefix(key: u64, m: nat, n: nat)
    requires m <= n <= LEVELS
    ensures Path(key, n)[..m] == Path(key, m)
  {
  }

  // Two keys share their first n offsets exactly when they agree above the remaining sections.
  lemma {:induction false} SamePath(k1: u64, k2: u64, n: nat)
    requires k1 < Pow2(PTS_INDEX_WIDTH) && k2 < Pow2(PTS_INDEX_WIDTH) && n <= LEVELS
    ensures Path(k1, n) == Path(k2, n)
            <==> Shr(k1, PT_INDEX_WIDTH * (LEVELS - n)) == Shr(k2, PT_INDEX_WIDTH * (LEVELS - n))
  {
    hide Shr, GetIndexSection;
    var s := PT_INDEX_WIDTH * (LEVELS - n);
    if n == 0 {
      ShrBound(k1, s, s);
      ShrBound(k2, s, s);
    } else {
      SamePath(k1, k2, n - 1);
      SectionAndRest(k1, LEVELS - n);
      SectionAndRest(k2, LEVELS - n);
      SameEnds(Path(k1, n - 1), GetIndexSection(k1, LEVELS - n), Path(k2, n - 1), GetIndexSection(k2, LEVELS - n));
    }
  }

  // What lies above section i - 1 is section i and what lies above it.
  lemma SectionAndRest(key: u64, i: nat)
    ensures Shr(key, PT_INDEX_WIDTH * i)
            == Shr(key, PT_INDEX_WIDTH * (i + 1)) * ENTRIES + GetIndexSection(key, i)
  {
    hide Shr;
    var s := PT_INDEX_WIDTH * i;
    ShrShr(key, s, 9);
    Shr9(Shr(key, s));
    DivMod(Shr(key, s), ENTRIES);
  }

  lemma SameEnds(p1: seq<nat>, d1: nat, p2: seq<nat>, d2: nat)
    requires |p1| == |p2|
    ensures p1 + [d1] == p2 + [d2] <==> p1 == p2 && d1 == d2
  {
    assert (p1 + [d1])[..|p1|] == p1 && (p2 + [d2])[..|p1|] == p2;
    assert (p1 + [d1])[|p1|] == d1 && (p2 + [d2])[|p1|] == d2;
  }

  ghost predicate InRange(contextId: u64, vaddr: u64) {
    contextId < Pow2(CONTEXTID_WIDTH) && vaddr < Pow2(VADDR_WIDTH)
  }

  lemma KeyIsSum(contextId: u64, vaddr: u64)
    requires InRange(contextId, vaddr)
    ensures Shr(vaddr, 12) < Pow2(36)
    ensures CalculatePtIndex(contextId, vaddr) == Shr(vaddr, 12) + Shl(contextId, 36) < Pow2(PTS_INDEX_WIDTH)
  {
    hide Shr, Shl, Or, Pow2;
    ShrBound(vaddr, 12, 48);
    ShlBound(Shr(vaddr, 12), contextId, 18, 36);
    Pow2Values();
    assert Shl(contextId, 36) % U64_SIZE == Shl(contextId, 36) by {
      ModSmall(Shl(contextId, 36), U64_SIZE);
    }
    OrDisjoint(Shr(vaddr, 12), contextId, 36);
  }

  lemma KeyAbove(contextId: u64, vaddr: u64, p: nat)
    requires InRange(contextId, vaddr) && p <= 4
    ensures Shr(vaddr, VADDR_LSO + PT_INDEX_WIDTH * p) < Pow2(36 - PT_INDEX_WIDTH * p)
    ensures Shr(CalculatePtIndex(contextId, vaddr), PT_INDEX_WIDTH * p)
            == Shr(vaddr, VADDR_LSO + PT_INDEX_WIDTH * p) + Shl(contextId, 36 - PT_INDEX_WIDTH * p)
  {
    hide Shr, Shl, Or, Pow2, CalculatePtIndex;
    assert CalculatePtIndex(contextId, vaddr) == Shr(vaddr, 12) + Shl(contextId, 36) && Shr(vaddr, 12) < Pow2(36) by {
      KeyIsSum(contextId, vaddr);
    }
    var m := PT_INDEX_WIDTH * p;
    assert Shr(Shr(vaddr, 12) + Shl(contextId, 36), m) == Shr(Shr(vaddr, 12), m) + Shl(contextId, 36 - m) by {
      ShrSum(Shr(vaddr, 12), contextId, m, 36);
    }
    assert Shr(Shr(vaddr, 12), m) == Shr(vaddr, 12 + m) by {
      ShrShr(vaddr, 12, m);
    }
    assert Shr(Shr(vaddr, 12), m) < Pow2(36 - m) by {
      ShrBound(Shr(vaddr, 12), m, 36);
    }
  }

  // What a page of size class p is: one context, and the addresses that agree above
  // the 12 + 9p offset bits.
  lemma SamePage(c1: u64, v1: u64, c2: u64, v2: u64, p: nat)
    requires InRange(c1, v1) && InRange(c2, v2) && p <= 4
    ensures Path(CalculatePtIndex(c1, v1), LEVELS - p) == Path(CalculatePtIndex(c2, v2), LEVELS - p)
            <==> c1 == c2 && Shr(v1, VADDR_LSO + PT_INDEX_WIDTH * p) == Shr(v2, VADDR_LSO + PT_INDEX_WIDTH * p)
  {
    hide Shr, Shl, Or, Pow2, CalculatePtIndex, Path;
    KeyIsSum(c1, v1);
    KeyIsSum(c2, v2);
    KeyAbove(c1, v1, p);
    KeyAbove(c2, v2, p);
    var k1, k2 := CalculatePtIndex(c1, v1), CalculatePtIndex(c2, v2);
    SamePath(k1, k2, LEVELS - p);
    if Shr(k1, PT_INDEX_WIDTH * p) == Shr(k2, PT_INDEX_WIDTH * p) {
      ShlUnique(Shr(v1, 12 + 9 * p), c1, Shr(v2, 12 + 9 * p), c2, 36 - 9 * p);
    }
  }

  // Address bits at and above bit 48 are not lost but merged into the context, so keys tell
  // (context, address) pairs apart only below 2^48.
  lemma HighBitsMergeIntoContext(contextId: u64, low: u64, high: nat)
    requires InRange(contextId, low) && high < 0x1_0000
    ensures low + Shl(high, VADDR_WIDTH) < U64_SIZE && Or(high, contextId) < Pow2(CONTEXTID_WIDTH) < U64_SIZE
    ensures CalculatePtIndex(contextId, low + Shl(high, VADDR_WIDTH)) == CalculatePtIndex(Or(high, contextId), low)
  {
    hide Shr, Shl, Or, Pow2;
    Pow2Values();
    ShlBound(low, high, 16, 48);
    OrBound(high, contextId, 18);
    KeyIsSum(Or(high, contextId), low);
    ShrBound(low, 12, 48);
    ShrSum(low, high, 12, 48);
    OrSplit(Shr(low, 12), high, contextId, 36);
    ShlBound(0, contextId, 18, 36);
  }

  // The miss handler builds its key from the page number it was sent, and slices it from the
  // top; both agree with the builder's arithmetic.
  function WalkOffset(key: u64, len: nat): nat
    requires PT_INDEX_WIDTH <= len
  {
    Shr(key, len - PT_INDEX_WIDTH) % ENTRIES
  }

  lemma WalkOffsetIsSection(key: u64, depth: nat)
    requires depth < LEVELS
    ensures WalkOffset(key, PTS_INDEX_WIDTH - PT_INDEX_WIDTH * depth) == Path(key, LEVELS)[depth]
  {
    assert PTS_INDEX_WIDTH - PT_INDEX_WIDTH * depth - PT_INDEX_WIDTH == PT_INDEX_WIDTH * (LEVELS - 1 - depth);
  }
}
