// sim/linkedlist.hpp: a list of table indices, threaded in place through the next field of the
// table's entries. Several lists share one table.
module LinkedLists {
  import Chains
  import opened TwoPhase

  // Each index of q leads to the following one; what the last one holds does not matter.
  ghost predicate Threaded(table: seq<nat>, q: seq<nat>) {
    && (forall i :: 0 <= i < |q| ==> q[i] < |table|)
    && (forall i, j :: 0 <= i < j < |q| && j == i + 1 ==> table[q[i]] == q[j])
  }

  // Storing the head of one list behind the tail of another joins them.
  lemma JoinThreaded(table: seq<nat>, q: seq<nat>, r: seq<nat>)
    requires Threaded(table, q) && Threaded(table, r) && Chains.Distinct(q + r)
    ensures q != [] && r != [] ==> q[|q| - 1] < |table| && Threaded(table[q[|q| - 1] := r[0]], q + r)
    ensures q == [] || r == [] ==> Threaded(table, q + r)
  {
    if q == [] || r == [] {
      assert q + r == q || q + r == r;
      return;
    }
    var tail := q[|q| - 1];
    assert (q + r)[|q| - 1] == tail;
    forall i, j | 0 <= i < j < |q + r| && j == i + 1
      ensures table[tail := r[0]][(q + r)[i]] == (q + r)[j]
    {
      if i != |q| - 1 {
        assert (q + r)[i] != tail by {
          assert i < |q| - 1 || |q| - 1 < i;
        }
        assert i >= |q| ==> table[r[i - |q|]] == r[j - |q|];
      }
    }
  }

  // A list keeps its thread when the table changes only in places that are not on it.
  lemma ThreadedElsewhere(table: seq<nat>, table': seq<nat>, q: seq<nat>)
    requires Threaded(table, q) && |table'| == |table|
    requires forall i :: 0 <= i < |table| && i in q ==> table'[i] == table[i]
    ensures Threaded(table', q)
  {
  }

  ghost predicate HasEnds(q: seq<nat>, empty: bool, first: nat, last: nat) {
    (empty <==> q == []) && (!empty ==> first == q[0] && last == q[|q| - 1])
  }

  ghost predicate PopReady(q: seq<nat>, popped: bool, next: nat) {
    popped ==> q != [] && (|q| > 1 ==> next == q[1])
  }

  datatype Signal = Notify | Unnotify

  class LinkedList {
    const table: array<nat>
    var empty: bool
    var popped: bool
    var pushed: bool
    var head: nat
    var tail: nat
    var next: nat
    var first: nat
    var last: nat
    ghost var items: seq<nat>
    ghost var appended: seq<nat>

    // The items that stay: a popped head is on the way out, and its entry may be reused.
    ghost function Staying(): seq<nat>
      reads this
    {
      if popped && items != [] then items[1..] else items
    }

    ghost predicate Valid()
      reads this, table
    {
      && Chains.Distinct(items) && HasEnds(items, empty, head, tail)
      && HasEnds(appended, !pushed, first, last)
      && PopReady(items, popped, next)
      && Threaded(table[..], Staying()) && Threaded(table[..], appended)
    }

    // The entries whose next fields the list relies on, or will.
    ghost function Owned(): seq<nat>
      reads this
    {
      Staying() + appended
    }

    ghost function View(): Storage<nat>
      reads this
    {
      List(items, appended, popped)
    }

    constructor (table: array<nat>)
      ensures Valid() && this.table == table && View() == List([], [], false)
    {
      this.table := table;
      empty, popped, pushed := true, false, false;
      head, tail, next, first, last := 0, 0, 0, 0, 0;
      items, appended := [], [];
    }

    // Queues a chain that its owner has threaded through the table.
    method Append(first: nat, last: nat, ghost chain: seq<nat>)
      requires Valid() && Allowed(View(), TwoPhase.Append(chain))
      requires Threaded(table[..], chain) && first == chain[0] && last == chain[|chain| - 1]
      modifies this
      ensures Valid() && View() == Requested(old(View()), TwoPhase.Append(chain))
    {
      this.first, this.last := first, last;
      pushed := true;
      appended := chain;
    }

    function Front(): (item: nat)
      requires Valid() && !empty
      reads this, table
      ensures item == items[0]
    {
      head
    }

    method Pop()
      requires Valid() && Allowed(View(), Request<nat>.Pop)
      modifies this
      ensures Valid() && View() == Requested(old(View()), Request<nat>.Pop)
    {
      popped := true;
      next := table[head];
    }

    // The pop of this cycle.
    method TakeHead() returns (signals: seq<Signal>)
      requires Valid()
      modifies this`empty, this`head
      ensures HasEnds(Staying(), empty, head, tail)
      ensures signals == if popped && |items| == 1 then [Unnotify] else []
    {
      signals := [];
      if popped {
        if head == tail {
          signals := [Unnotify];
          empty := true;
        } else {
          head := next;
        }
      }
    }

    // The append of this cycle, to what is left of the list.
    method AddChain(ghost q: seq<nat>) returns (signals: seq<Signal>)
      requires HasEnds(q, empty, head, tail) && HasEnds(appended, !pushed, first, last)
      requires Threaded(table[..], q) && Threaded(table[..], appended) && Chains.Distinct(q + appended)
      modifies this`empty, this`head, this`tail, table
      ensures HasEnds(q + appended, empty, head, tail) && Threaded(table[..], q + appended)
      ensures signals == if pushed && q == [] then [Notify] else []
      ensures forall i :: 0 <= i < table.Length && i !in q ==> table[i] == old(table[i])
    {
      hide Threaded, Chains.Distinct;
      JoinThreaded(table[..], q, appended);
      signals := [];
      if pushed {
        if empty {
          head := first;
          signals := [Notify];
          empty := false;
        } else {
          table[tail] := first;
        }
        tail := last;
      }
      assert appended == [] ==> q + appended == q;
    }

    // Makes the pop and the append of this cycle happen. Only the entry of the old tail changes.
    method Update() returns (signals: seq<Signal>)
      requires Valid() && Pending(View())
      requires Chains.Distinct(Staying() + appended)
      modifies this, table
      ensures Valid() && View() == Updated(old(View())) && Owned() == old(Owned())
      ensures signals == (if old(popped && |items| == 1) then [Unnotify] else [])
        + (if old(pushed && Staying() == []) then [Notify] else [])
      ensures forall i :: 0 <= i < table.Length && i !in old(Staying()) ==> table[i] == old(table[i])
    {
      hide Threaded, Chains.Distinct, HasEnds;
      ghost var staying := Staying();
      var drained := TakeHead();
      var filled := AddChain(staying);
      signals := drained + filled;
      items, appended := staying + appended, [];
      pushed, popped := false, false;
      NoChain(table[..], first, last);
    }

    lemma NoChain(table: seq<nat>, first: nat, last: nat)
      ensures Threaded(table, []) && HasEnds([], true, first, last)
    {
    }

    // The iterator, from begin() to end(). While a pop is pending the head's entry may have been
    // given another use; the items are then met only if it still leads to the second one.
    method Walk() returns (r: seq<nat>)
      requires Valid() && !empty && (popped ==> Threaded(table[..], items))
      ensures r == items
    {
      var index := head;
      r := [index];
      while index != tail
        invariant 0 < |r| <= |items| && r == items[..|r|] && index == items[|r| - 1]
        decreases |items| - |r|
      {
        assert table[..][items[|r| - 1]] == items[|r|];
        index := table[index];
        r := r + [index];
      }
    }
  }

  // ----- several lists on one table

  // Different lists on one table, no entry owned twice. A popped head is not owned any more, so that
  // an item may move from one list to another within a cycle.
  ghost predicate Sharing(lists: seq<LinkedList>, table: array<nat>)
    reads lists, table
  {
    && Chains.Distinct(lists)
    && (forall k :: 0 <= k < |lists| ==> lists[k].table == table && lists[k].Valid() && Chains.Distinct(lists[k].Owned()))
    && (forall j, k :: 0 <= j < k < |lists| ==> Apart(lists[j].Owned(), lists[k].Owned()))
  }

  ghost predicate Apart(q: seq<nat>, r: seq<nat>) {
    forall i :: 0 <= i < |q| ==> q[i] !in r
  }

  lemma ApartFrom(q: seq<nat>, r: seq<nat>)
    requires Apart(q, r) || Apart(r, q)
    ensures forall i :: i in r ==> i !in q
  {
  }

  // What the end of a cycle makes of a list.
  ghost function AtEnd(s: Storage<nat>): Storage<nat> {
    if Pending(s) then Updated(s) else s
  }

  // A list that was not updated keeps its items, whatever changed in entries it does not own.
  twostate lemma OtherKept(l: LinkedList)
    requires old(l.Valid()) && unchanged(l)
    requires forall i :: 0 <= i < l.table.Length && i in l.Owned() ==> l.table[i] == old(l.table[i])
    ensures l.Valid()
  {
    assert forall i :: i in l.Staying() || i in l.appended ==> i in l.Owned();
    ThreadedElsewhere(old(l.table[..]), l.table[..], l.Staying());
    ThreadedElsewhere(old(l.table[..]), l.table[..], l.appended);
  }

  lemma PendingIs(l: LinkedList)
    requires l.Valid()
    ensures Pending(l.View()) <==> l.popped || l.pushed
  {
  }

  // The update of one list: the others are as they were, and no entry changes its owner.
  method UpdateOne(lists: seq<LinkedList>, table: array<nat>, k: nat)
    requires Sharing(lists, table) && k < |lists|
    modifies lists[k], table
    ensures Sharing(lists, table)
    ensures forall j :: 0 <= j < |lists| ==> lists[j].View() == if j == k then AtEnd(old(lists[j].View())) else old(lists[j].View())
  {
    PendingIs(lists[k]);
    if lists[k].popped || lists[k].pushed {
      UpdatePending(lists, table, k);
    }
  }

  method UpdatePending(lists: seq<LinkedList>, table: array<nat>, k: nat)
    requires Sharing(lists, table) && k < |lists| && Pending(lists[k].View())
    modifies lists[k], table
    ensures Sharing(lists, table) && lists[k].View() == Updated(old(lists[k].View()))
  {
    hide Threaded, HasEnds, PopReady, Updated, Pending, Apart;
    var _ := lists[k].Update();
    forall j | 0 <= j < |lists| && j != k
      ensures lists[j].Valid() && lists[j].Owned() == old(lists[j].Owned())
    {
      ApartFrom(old(lists[k].Owned()), old(lists[j].Owned()));
      OtherKept(lists[j]);
    }
  }

  // The end of a cycle: every list that has something pending is updated, each as if it were alone.
  method UpdateAll(lists: seq<LinkedList>, table: array<nat>)
    requires Sharing(lists, table)
    modifies lists, table
    ensures Sharing(lists, table)
    ensures forall k :: 0 <= k < |lists| ==> lists[k].View() == AtEnd(old(lists[k].View()))
  {
    hide Sharing;
    for k := 0 to |lists|
      invariant Sharing(lists, table)
      invariant forall j :: 0 <= j < |lists| ==> lists[j].View() == if j < k then AtEnd(old(lists[j].View())) else old(lists[j].View())
    {
      UpdateOne(lists, table, k);
    }
  }
}
