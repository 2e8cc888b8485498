// Intrusive lists: sequences threaded through a next field, and possibly a previous field, of
// their own elements.
module Chains {
  import opened Options

  ghost function At<T>(q: seq<T>, i: int): Option<T> {
    if 0 <= i < |q| then Some(q[i]) else None
  }

  ghost predicate Distinct<T>(q: seq<T>) {
    forall i, j :: 0 <= i < j < |q| ==> q[i] != q[j]
  }

  // Following next from the head goes through q and ends.
  ghost predicate Linked<T>(q: seq<T>, next: map<T, Option<T>>, head: Option<T>) {
    && head == At(q, 0)
    && (forall i :: 0 <= i < |q| ==> q[i] in next)
    && (forall i, j :: 0 <= i < j < |q| && j == i + 1 ==> next[q[i]] == Some(q[j]))
    && (q != [] ==> next[q[|q| - 1]] == None)
  }

  // Every element knows the one before it.
  ghost predicate BackLinked<T>(q: seq<T>, prev: map<T, Option<T>>) {
    && (forall i :: 0 <= i < |q| ==> q[i] in prev)
    && (forall i, j :: 0 <= i < j < |q| && j == i + 1 ==> prev[q[j]] == Some(q[i]))
    && (q != [] ==> prev[q[0]] == None)
  }

  lemma LinkedAt<T>(q: seq<T>, next: map<T, Option<T>>, head: Option<T>, k: nat)
    requires Linked(q, next, head)
    ensures k < |q| ==> q[k] in next && next[q[k]] == At(q, k + 1)
  {
  }

  // ----- inserting at place k

  ghost function Insert<T>(q: seq<T>, k: nat, c: T): (r: seq<T>)
    requires k <= |q|
    ensures |r| == |q| + 1
    ensures forall i :: 0 <= i <= |q| ==> r[i] == if i < k then q[i] else if i == k then c else q[i - 1]
  {
    q[..k] + [c] + q[k..]
  }

  lemma InsertMembers<T>(q: seq<T>, k: nat, c: T)
    requires k <= |q|
    ensures c in Insert(q, k, c)
    ensures forall d :: d in q ==> d in Insert(q, k, c)
    ensures forall d :: d in Insert(q, k, c) ==> d == c || d in q
  {
    assert q == q[..k] + q[k..];
  }

  lemma InsertDistinct<T>(q: seq<T>, k: nat, c: T)
    requires k <= |q| && Distinct(q) && c !in q
    ensures Distinct(Insert(q, k, c))
  {
    assert forall i :: 0 <= i < |q| ==> q[i] in q;
  }

  // Stores c behind an element, or nowhere when there is none.
  ghost function Behind<T>(next: map<T, Option<T>>, before: Option<T>, c: Option<T>): map<T, Option<T>> {
    if before.None? then next else next[before.value := c]
  }

  ghost function InsertNext<T>(q: seq<T>, next: map<T, Option<T>>, k: nat, c: T): map<T, Option<T>> {
    Behind(next, At(q, k - 1), Some(c))[c := At(q, k)]
  }

  ghost function InsertPrev<T>(q: seq<T>, prev: map<T, Option<T>>, k: nat, c: T): map<T, Option<T>> {
    Behind(prev, At(q, k), Some(c))[c := At(q, k - 1)]
  }

  lemma InsertLinkedAt<T>(q: seq<T>, next: map<T, Option<T>>, head: Option<T>, k: nat, c: T, i: nat)
    requires Linked(q, next, head) && Distinct(q) && c !in q && k <= |q| && i <= |q|
    ensures var r, next' := Insert(q, k, c), InsertNext(q, next, k, c);
      r[i] in next' && next'[r[i]] == At(r, i + 1)
  {
    if i != k {
      var j := if i < k then i else i - 1;
      assert q[j] in q && (k > 0 && j != k - 1 ==> q[j] != q[k - 1]);
    }
  }

  lemma InsertLinked<T>(q: seq<T>, next: map<T, Option<T>>, head: Option<T>, k: nat, c: T)
    requires Linked(q, next, head) && Distinct(q) && c !in q && k <= |q|
    ensures Linked(Insert(q, k, c), InsertNext(q, next, k, c), if k == 0 then Some(c) else head)
  {
    hide InsertNext;
    var r, next' := Insert(q, k, c), InsertNext(q, next, k, c);
    forall i | 0 <= i <= |q|
      ensures r[i] in next' && next'[r[i]] == At(r, i + 1)
    {
      InsertLinkedAt(q, next, head, k, c, i);
    }
  }

  // ----- taking out place k

  ghost function Remove<T>(q: seq<T>, k: nat): (r: seq<T>)
    requires k < |q|
    ensures |r| == |q| - 1
    ensures forall i :: 0 <= i < |q| - 1 ==> r[i] == q[if i < k then i else i + 1]
  {
    q[..k] + q[k + 1..]
  }

  lemma RemoveMembers<T>(q: seq<T>, k: nat)
    requires k < |q| && Distinct(q)
    ensures q[k] !in Remove(q, k)
    ensures forall d :: d in q && d != q[k] ==> d in Remove(q, k)
    ensures forall d :: d in Remove(q, k) ==> d in q
  {
    assert q == q[..k] + [q[k]] + q[k + 1..];
  }

  lemma RemoveDistinct<T>(q: seq<T>, k: nat)
    requires k < |q| && Distinct(q)
    ensures Distinct(Remove(q, k))
  {
  }

  ghost function RemoveNext<T>(q: seq<T>, next: map<T, Option<T>>, k: nat): map<T, Option<T>> {
    Behind(next, At(q, k - 1), At(q, k + 1))
  }

  ghost function RemovePrev<T>(q: seq<T>, prev: map<T, Option<T>>, k: nat): map<T, Option<T>> {
    Behind(prev, At(q, k + 1), At(q, k - 1))
  }

  lemma RemoveLinkedAt<T>(q: seq<T>, next: map<T, Option<T>>, head: Option<T>, k: nat, i: nat)
    requires Linked(q, next, head) && Distinct(q) && k < |q| && i < |q| - 1
    ensures var r, next' := Remove(q, k), RemoveNext(q, next, k);
      r[i] in next' && next'[r[i]] == At(r, i + 1)
  {
    var j := if i < k then i else i + 1;
    assert k > 0 && j != k - 1 ==> q[j] != q[k - 1];
  }

  lemma RemoveLinked<T>(q: seq<T>, next: map<T, Option<T>>, head: Option<T>, k: nat)
    requires Linked(q, next, head) && Distinct(q) && k < |q|
    ensures Linked(Remove(q, k), RemoveNext(q, next, k), if k == 0 then At(q, 1) else head)
  {
    hide RemoveNext;
    var r, next' := Remove(q, k), RemoveNext(q, next, k);
    forall i | 0 <= i < |q| - 1
      ensures r[i] in next' && next'[r[i]] == At(r, i + 1)
    {
      RemoveLinkedAt(q, next, head, k, i);
    }
  }

  // ----- the same for the links back

  lemma BackLinkedAt<T>(q: seq<T>, prev: map<T, Option<T>>, k: nat)
    requires BackLinked(q, prev)
    ensures k < |q| ==> q[k] in prev && prev[q[k]] == At(q, k - 1)
  {
  }

  lemma InsertBackLinked<T>(q: seq<T>, prev: map<T, Option<T>>, c: T)
    requires BackLinked(q, prev) && Distinct(q) && c !in q
    ensures BackLinked(Insert(q, 0, c), InsertPrev(q, prev, 0, c))
  {
    assert forall i :: 0 <= i < |q| ==> q[i] in q;
  }

  lemma RemoveBackLinkedAt<T>(q: seq<T>, prev: map<T, Option<T>>, k: nat, i: nat)
    requires BackLinked(q, prev) && Distinct(q) && k < |q| && i < |q| - 1
    ensures var r, prev' := Remove(q, k), RemovePrev(q, prev, k);
      r[i] in prev' && prev'[r[i]] == At(r, i - 1)
  {
    var j := if i < k then i else i + 1;
    assert k + 1 < |q| && j != k + 1 ==> q[j] != q[k + 1];
  }

  lemma RemoveBackLinked<T>(q: seq<T>, prev: map<T, Option<T>>, k: nat)
    requires BackLinked(q, prev) && Distinct(q) && k < |q|
    ensures BackLinked(Remove(q, k), RemovePrev(q, prev, k))
  {
    hide RemovePrev;
    var r, prev' := Remove(q, k), RemovePrev(q, prev, k);
    forall i | 0 <= i < |q| - 1
      ensures r[i] in prev' && prev'[r[i]] == At(r, i - 1)
    {
      RemoveBackLinkedAt(q, prev, k, i);
    }
  }
}
