// arch/VirtualMemory.cpp: the ranges of memory that have been reserved, and by whom.
module Reservations {
  import opened Options
  import opened OrderedKeys

  datatype Permission = Read | Write | Execute | DcaRead | DcaWrite

  datatype Range = Range(size: nat, owner: nat, permissions: set<Permission>)

  // Ranges by their first address.
  type Ranges = map<nat, Range>

  // No two ranges share an address.
  ghost predicate Disjoint(ranges: Ranges) {
    && (forall a :: a in ranges ==> ranges[a].size > 0)
    && (forall a, b :: a in ranges && b in ranges && a < b ==> a + ranges[a].size <= b)
  }

  predicate In(x: nat, a: nat, size: nat) {
    a <= x < a + size
  }

  // Whether a range shares an address with [a, a + size).
  ghost predicate Overlaps(ranges: Ranges, b: nat, a: nat, size: nat)
    requires b in ranges
  {
    exists x: nat :: In(x, a, size) && In(x, b, ranges[b].size)
  }

  ghost predicate Free(ranges: Ranges, a: nat, size: nat) {
    forall b :: b in ranges ==> !Overlaps(ranges, b, a, size)
  }

  // Whether a range holds all of [a, a + size).
  ghost predicate Holds(ranges: Ranges, b: nat, a: nat, size: nat)
    requires b in ranges
  {
    b <= a && a + size <= b + ranges[b].size
  }

  // The last range that starts at or before an address. An empty stretch between two adjoining
  // ranges lies in both; this is the one that is asked.
  ghost predicate Latest(ranges: Ranges, b: nat, a: nat) {
    b <= a && forall c :: c in ranges && c <= a ==> c <= b
  }

  ghost function TotalSize(ranges: Ranges): nat {
    if ranges == map[] then 0
    else
      var a :| a in ranges;
      ranges[a].size + TotalSize(ranges - {a})
  }

  lemma {:induction false} TotalWithout(ranges: Ranges, a: nat)
    requires a in ranges
    ensures TotalSize(ranges) == ranges[a].size + TotalSize(ranges - {a})
    decreases |ranges|
  {
    var b :| b in ranges && TotalSize(ranges) == ranges[b].size + TotalSize(ranges - {b});
    if a != b {
      TotalWithout(ranges - {b}, a);
      TotalWithout(ranges - {a}, b);
      assert ranges - {b} - {a} == ranges - {a} - {b};
    }
  }

  lemma OverlapsIs(ranges: Ranges, b: nat, a: nat, size: nat)
    requires b in ranges && ranges[b].size > 0 && size > 0
    ensures Overlaps(ranges, b, a, size) <==> b < a + size && a < b + ranges[b].size
  {
    if b < a + size && a < b + ranges[b].size {
      var x := if a < b then b else a;
      assert In(x, a, size) && In(x, b, ranges[b].size);
    }
  }

  lemma FreeIs(ranges: Ranges, a: nat, size: nat)
    requires Disjoint(ranges)
    ensures Free(ranges, a, size) <==> size == 0 || forall b :: b in ranges ==> a + size <= b || b + ranges[b].size <= a
  {
    if size > 0 {
      forall b | b in ranges
        ensures Overlaps(ranges, b, a, size) <==> b < a + size && a < b + ranges[b].size
      {
        OverlapsIs(ranges, b, a, size);
      }
    }
  }

  // Only the neighbours can overlap.
  lemma NeighboursDecide(ranges: Ranges, a: nat, size: nat, p: Option<nat>, q: Option<nat>)
    requires Disjoint(ranges) && size > 0 && IsLowerBound(ranges.Keys, a, p) && IsPredecessor(ranges.Keys, p, q)
    ensures Free(ranges, a, size) <==> (p.Some? ==> a + size <= p.value) && (q.Some? ==> q.value + ranges[q.value].size <= a)
  {
    forall b | b in ranges
      ensures Overlaps(ranges, b, a, size) <==> b < a + size && a < b + ranges[b].size
    {
      OverlapsIs(ranges, b, a, size);
    }
  }

  lemma ReservedDisjoint(ranges: Ranges, a: nat, r: Range)
    requires Disjoint(ranges) && r.size > 0 && Free(ranges, a, r.size)
    ensures a !in ranges && Disjoint(ranges[a := r]) && TotalSize(ranges[a := r]) == TotalSize(ranges) + r.size
  {
    forall b | b in ranges
      ensures !(b < a + r.size && a < b + ranges[b].size)
    {
      OverlapsIs(ranges, b, a, r.size);
    }
    TotalWithout(ranges[a := r], a);
    assert ranges[a := r] - {a} == ranges;
  }

  lemma UnreservedDisjoint(ranges: Ranges, a: nat)
    requires Disjoint(ranges) && a in ranges
    ensures Disjoint(ranges - {a}) && TotalSize(ranges - {a}) == TotalSize(ranges) - ranges[a].size
  {
    TotalWithout(ranges, a);
  }

  // At most one range holds a non-empty stretch of memory.
  lemma HolderIsUnique(ranges: Ranges, b: nat, c: nat, a: nat, size: nat)
    requires Disjoint(ranges) && b in ranges && c in ranges && size > 0
    requires Holds(ranges, b, a, size) && Holds(ranges, c, a, size)
    ensures b == c
  {
  }

  // What is left when the owner's ranges below an address are gone.
  ghost function Swept(ranges: Ranges, owner: nat, last: nat): Ranges {
    map a | a in ranges && (last <= a || ranges[a].owner != owner) :: ranges[a]
  }

  lemma SweptOneMore(ranges: Ranges, owner: nat, last: nat, a: nat)
    requires a in ranges && last <= a && forall b :: b in ranges && last <= b ==> a <= b
    ensures Swept(ranges, owner, a + 1)
      == if ranges[a].owner == owner then Swept(ranges, owner, last) - {a} else Swept(ranges, owner, last)
  {
  }

  lemma SweptNone(ranges: Ranges, owner: nat)
    ensures Swept(ranges, owner, 0) == ranges
  {
  }

  lemma SweptAll(ranges: Ranges, owner: nat, last: nat)
    requires IsLowerBound(Swept(ranges, owner, last).Keys, last, None)
    ensures Swept(ranges, owner, last) == map a | a in ranges && ranges[a].owner != owner :: ranges[a]
  {
    assert forall a :: a in ranges && last <= a ==> a in Swept(ranges, owner, last);
  }

  lemma SweptNext(ranges: Ranges, owner: nat, last: nat, a: nat)
    requires IsLowerBound(Swept(ranges, owner, last).Keys, last, Some(a))
    ensures a in ranges && last <= a && Swept(ranges, owner, last)[a] == ranges[a]
    ensures Swept(ranges, owner, a + 1)
      == if ranges[a].owner == owner then Swept(ranges, owner, last) - {a} else Swept(ranges, owner, last)
  {
    assert forall b :: b in ranges && last <= b ==> b in Swept(ranges, owner, last);
    SweptOneMore(ranges, owner, last, a);
  }

  class RangeMap {
    var ranges: Ranges
    var totalReserved: nat
    var numberOfRanges: nat

    ghost predicate Valid()
      reads this
    {
      Disjoint(ranges) && totalReserved == TotalSize(ranges) && numberOfRanges == |ranges|
    }

    constructor ()
      ensures Valid() && ranges == map[]
    {
      ranges, totalReserved, numberOfRanges := map[], 0, 0;
    }

    // Fails exactly when some address is taken; reserving nothing succeeds and does nothing.
    method Reserve(a: nat, size: nat, owner: nat, permissions: set<Permission>) returns (ok: bool)
      requires Valid()
      modifies this
      ensures Valid() && ok == Free(old(ranges), a, size)
      ensures ok <==> size == 0 || forall b :: b in old(ranges) ==> a + size <= b || b + old(ranges)[b].size <= a
      ensures ranges == if ok && size > 0 then old(ranges)[a := Range(size, owner, permissions)] else old(ranges)
    {
      FreeIs(ranges, a, size);
      if size == 0 {
        return true;
      }
      var p := LowerBound(ranges.Keys, a);
      var q := Predecessor(ranges.Keys, p);
      NeighboursDecide(ranges, a, size, p, q);
      if p.Some? && (p.value == a || (a < p.value && a + size > p.value)) {
        return false;
      }
      if q.Some? && q.value + ranges[q.value].size > a {
        return false;
      }
      ReservedDisjoint(ranges, a, Range(size, owner, permissions));
      ranges := ranges[a := Range(size, owner, permissions)];
      totalReserved := totalReserved + size;
      numberOfRanges := numberOfRanges + 1;
      ok := true;
    }

    // Only a whole range can be given back.
    method Unreserve(a: nat, size: nat) returns (ok: bool)
      requires Valid()
      modifies this
      ensures Valid() && ok == (a in old(ranges) && old(ranges)[a].size == size)
      ensures ranges == if ok then old(ranges) - {a} else old(ranges)
    {
      if a !in ranges {
        return false;
      }
      if size != ranges[a].size {
        return false;
      }
      Erase(a);
      ok := true;
    }

    method Erase(a: nat)
      requires Valid() && a in ranges
      modifies this
      ensures Valid() && ranges == old(ranges) - {a}
    {
      UnreservedDisjoint(ranges, a);
      totalReserved := totalReserved - ranges[a].size;
      numberOfRanges := numberOfRanges - 1;
      ranges := ranges - {a};
    }

    method UnreserveAll(owner: nat)
      requires Valid()
      modifies this
      ensures Valid() && ranges == map a | a in old(ranges) && old(ranges)[a].owner != owner :: old(ranges)[a]
    {
      hide Disjoint, TotalSize, Swept;
      var p := LowerBound(ranges.Keys, 0);
      ghost var last: nat, ahead := 0, ranges.Keys;
      SweptNone(ranges, owner);
      while p.Some?
        invariant Valid() && IsLowerBound(ranges.Keys, last, p) && ranges == Swept(old(ranges), owner, last)
        invariant forall b :: b in ranges && last <= b ==> b in ahead
        decreases ahead
      {
        var a := p.value;
        p := LowerBound(ranges.Keys, a + 1);
        SweptNext(old(ranges), owner, last, a);
        if ranges[a].owner == owner {
          Erase(a);
        }
        last, ahead := a + 1, ahead - {a};
      }
      SweptAll(old(ranges), owner, last);
    }

    // The range that holds [a, a + size), found by looking at the neighbours alone.
    method GetReservationRange(a: nat, size: nat) returns (r: Option<nat>)
      requires Valid()
      ensures r.Some? ==> r.value in ranges && Holds(ranges, r.value, a, size) && Latest(ranges, r.value, a)
      ensures r.None? ==> forall b :: b in ranges ==> !Holds(ranges, b, a, size)
    {
      var p := LowerBound(ranges.Keys, a);
      var q := Predecessor(ranges.Keys, p);
      if q.Some? && (p.None? || p.value > a) {
        p := q;
      }
      if p.Some? && a >= p.value && ranges[p.value].size >= size && a <= p.value + (ranges[p.value].size - size) {
        return p;
      }
      return None;
    }

    method Has(a: nat, size: nat) returns (r: bool)
      requires Valid()
      ensures r <==> exists b :: b in ranges && Holds(ranges, b, a, size)
    {
      var p := GetReservationRange(a, size);
      r := p.Some?;
    }

    method CheckPermissions(a: nat, size: nat, access: set<Permission>) returns (r: bool)
      requires Valid()
      ensures size > 0 ==> (r <==> exists b :: b in ranges && Holds(ranges, b, a, size) && access <= ranges[b].permissions)
      ensures r <==> exists b :: b in ranges && Holds(ranges, b, a, size) && Latest(ranges, b, a) && access <= ranges[b].permissions
    {
      var p := GetReservationRange(a, size);
      r := p.Some? && access <= ranges[p.value].permissions;
      if size > 0 && p.Some? {
        forall b | b in ranges && Holds(ranges, b, a, size)
          ensures b == p.value
        {
          HolderIsUnique(ranges, b, p.value, a, size);
        }
      }
    }
  }
}
