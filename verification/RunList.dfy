// sim/clock.hpp, sim/process.hpp, sim/storage.hpp, sim/storage.h, sim/kernel.cpp: the two lists a
// clock keeps. Its run list holds the processes that have work, each counting the storages that
// keep it awake; its update list holds the storages that changed in this cycle.
module RunList {
  import opened Chains
  import opened Options
  import TwoPhase

  type Content = TwoPhase.Storage<nat>

  // prev is the process whose next points here, or null when the head of the run list does.
  class Process {
    var activations: nat
    var next: Process?
    var prev: Process?

    constructor ()
      ensures activations == 0
    {
      activations, next, prev := 0, null, null;
    }
  }

  // A storage, and the process that is sensitive on it.
  class Cell {
    const process: Process
    var content: Content
    var next: Cell?
    var activated: bool

    constructor (process: Process, content: Content)
      ensures this.process == process && this.content == content && !activated
    {
      this.process, this.content := process, content;
      next, activated := null, false;
    }
  }

  ghost function OptProcess(p: Process?): Option<Process> {
    if p == null then None else var q: Process := p; Some(q)
  }

  ghost function OptCell(c: Cell?): Option<Cell> {
    if c == null then None else var d: Cell := c; Some(d)
  }

  // ----- the run list, as values

  datatype Runs = Runs(order: seq<Process>, count: map<Process, nat>, next: map<Process, Option<Process>>, prev: map<Process, Option<Process>>)

  // On the list exactly once if the count is positive, not at all if it is zero.
  ghost predicate Queued(order: seq<Process>, count: map<Process, nat>) {
    && Distinct(order)
    && (forall i :: 0 <= i < |order| ==> order[i] in count && count[order[i]] > 0)
    && (forall p :: p in count && count[p] > 0 ==> p in order)
  }

  ghost predicate RunsOk(r: Runs, head: Process?) {
    && Queued(r.order, r.count)
    && Linked(r.order, r.next, OptProcess(head)) && BackLinked(r.order, r.prev)
  }

  ghost predicate MirrorsNext(processes: set<Process>, next: map<Process, Option<Process>>)
    reads processes`next
  {
    next.Keys == processes && forall p :: p in processes ==> OptProcess(p.next) == next[p]
  }

  ghost predicate MirrorsPrev(processes: set<Process>, prev: map<Process, Option<Process>>)
    reads processes`prev
  {
    prev.Keys == processes && forall p :: p in processes ==> OptProcess(p.prev) == prev[p]
  }

  ghost predicate MirrorsCount(processes: set<Process>, count: map<Process, nat>)
    reads processes`activations
  {
    count.Keys == processes && forall p :: p in processes ==> p.activations == count[p]
  }

  ghost function Pushed(r: Runs, p: Process): Runs {
    Runs(Insert(r.order, 0, p), r.count[p := 1], InsertNext(r.order, r.next, 0, p), InsertPrev(r.order, r.prev, 0, p))
  }

  lemma PushedOk(r: Runs, head: Process?, p: Process)
    requires RunsOk(r, head) && p in r.count && r.count[p] == 0
    ensures RunsOk(Pushed(r, p), p)
  {
    hide Linked, BackLinked, Insert, InsertNext, InsertPrev;
    assert p !in r.order;
    InsertDistinct(r.order, 0, p);
    InsertMembers(r.order, 0, p);
    InsertLinked(r.order, r.next, OptProcess(head), 0, p);
    InsertBackLinked(r.order, r.prev, p);
    assert forall i :: 0 <= i < |Insert(r.order, 0, p)| ==> Insert(r.order, 0, p)[i] in Insert(r.order, 0, p);
    assert forall q :: q in r.order ==> q in r.count && r.count[q] > 0;
  }

  ghost function Removed(r: Runs, k: nat): Runs
    requires k < |r.order|
  {
    Runs(Remove(r.order, k), r.count[r.order[k] := 0], RemoveNext(r.order, r.next, k), RemovePrev(r.order, r.prev, k))
  }

  lemma RemovedOk(r: Runs, head: Process?, k: nat, head': Process?)
    requires RunsOk(r, head) && k < |r.order|
    requires if k == 0 then OptProcess(head') == At(r.order, 1) else head' == head
    ensures RunsOk(Removed(r, k), head')
  {
    hide Linked, BackLinked, Remove, RemoveNext, RemovePrev;
    RemoveDistinct(r.order, k);
    RemoveMembers(r.order, k);
    RemoveLinked(r.order, r.next, OptProcess(head), k);
    RemoveBackLinked(r.order, r.prev, k);
    assert forall i :: 0 <= i < |Remove(r.order, k)| ==> Remove(r.order, k)[i] in Remove(r.order, k);
    assert forall q :: q in r.order ==> q in r.count && r.count[q] > 0;
  }

  // ----- the update list, as values

  datatype Updates = Updates(order: seq<Cell>, content: map<Cell, Content>, next: map<Cell, Option<Cell>>)

  // Each storage with a pending change is on the list exactly once, and no other storage is.
  ghost predicate Registered(order: seq<Cell>, content: map<Cell, Content>) {
    && Distinct(order)
    && (forall i :: 0 <= i < |order| ==> order[i] in content && TwoPhase.Pending(content[order[i]]))
    && (forall c :: c in content && TwoPhase.Pending(content[c]) ==> c in order)
  }

  ghost predicate AllLegal(content: map<Cell, Content>) {
    forall c :: c in content ==> TwoPhase.Legal(content[c])
  }

  ghost predicate UpdatesOk(u: Updates, head: Cell?) {
    Registered(u.order, u.content) && AllLegal(u.content) && Linked(u.order, u.next, OptCell(head))
  }

  ghost predicate MirrorsCellNext(cells: set<Cell>, next: map<Cell, Option<Cell>>)
    reads cells`next
  {
    next.Keys == cells && forall c :: c in cells ==> OptCell(c.next) == next[c]
  }

  ghost predicate MirrorsContent(cells: set<Cell>, content: map<Cell, Content>)
    reads cells`content
  {
    content.Keys == cells && forall c :: c in cells ==> c.content == content[c]
  }

  ghost predicate MirrorsActivated(cells: set<Cell>, order: seq<Cell>)
    reads cells`activated
  {
    forall c :: c in cells ==> (c.activated <==> c in order)
  }

  // A storage takes a request and goes in front of the list unless it is on it already.
  ghost function Changed(u: Updates, c: Cell, changed: Content): Updates {
    if c in u.order then u.(content := u.content[c := changed])
    else Updates(Insert(u.order, 0, c), u.content[c := changed], InsertNext(u.order, u.next, 0, c))
  }

  lemma InsertRegistered(order: seq<Cell>, content: map<Cell, Content>, c: Cell, changed: Content)
    requires Registered(order, content) && c in content && c !in order && TwoPhase.Pending(changed)
    ensures Registered(Insert(order, 0, c), content[c := changed])
  {
    hide TwoPhase.Pending, Distinct, Insert;
    InsertDistinct(order, 0, c);
    InsertMembers(order, 0, c);
    assert forall d :: d in order ==> d in content && TwoPhase.Pending(content[d]);
    assert forall i :: 0 <= i < |Insert(order, 0, c)| ==> Insert(order, 0, c)[i] in Insert(order, 0, c);
  }

  lemma KeepRegistered(order: seq<Cell>, content: map<Cell, Content>, c: Cell, changed: Content)
    requires Registered(order, content) && c in order && TwoPhase.Pending(changed)
    ensures Registered(order, content[c := changed])
  {
    hide TwoPhase.Pending, Distinct;
    assert forall i :: 0 <= i < |order| ==> order[i] in order;
  }

  lemma RegisteredOnce(order: seq<Cell>, content: map<Cell, Content>)
    requires Registered(order, content)
    ensures Distinct(order)
  {
  }

  lemma ChangedOk(u: Updates, head: Cell?, c: Cell, changed: Content)
    requires UpdatesOk(u, head) && c in u.content && TwoPhase.Legal(changed) && TwoPhase.Pending(changed)
    ensures UpdatesOk(Changed(u, c, changed), if c in u.order then head else c)
  {
    hide Linked, Insert, InsertNext, TwoPhase.Legal, TwoPhase.Pending, Registered;
    if c !in u.order {
      InsertRegistered(u.order, u.content, c, changed);
      RegisteredOnce(u.order, u.content);
      InsertLinked(u.order, u.next, OptCell(head), 0, c);
    } else {
      KeepRegistered(u.order, u.content, c, changed);
    }
  }

  // The first storage on the list has been updated.
  ghost function UpdatedFirst(u: Updates): Updates
    requires u.order != [] && u.order[0] in u.content
  {
    var c := u.order[0];
    Updates(Remove(u.order, 0), u.content[c := TwoPhase.Updated(u.content[c])], u.next)
  }

  lemma UpdatedFirstOk(u: Updates, head: Cell, next: Cell?)
    requires UpdatesOk(u, head) && head in u.next && OptCell(next) == u.next[head]
    ensures u.order != [] && head == u.order[0] && head in u.content
    ensures UpdatesOk(UpdatedFirst(u), next) && |UpdatedFirst(u).order| < |u.order| && Distinct(u.order)
  {
    hide Remove, Distinct, TwoPhase.Updated, TwoPhase.Pending, TwoPhase.Legal;
    var c := u.order[0];
    TwoPhase.UpdatedIsLegal(u.content[c]);
    RemoveDistinct(u.order, 0);
    RemoveMembers(u.order, 0);
    RemoveLinked(u.order, u.next, Some(head), 0);
    assert forall i :: 0 <= i < |Remove(u.order, 0)| ==> Remove(u.order, 0)[i] in Remove(u.order, 0);
    assert forall d :: d in u.order ==> d in u.content && TwoPhase.Pending(u.content[d]);
  }

  // Every storage of a set updated, all others as they were.
  ghost function UpdatedAll(content: map<Cell, Content>, done: set<Cell>): map<Cell, Content> {
    map c | c in content :: if c in done then TwoPhase.Updated(content[c]) else content[c]
  }

  ghost function AllPending(content: map<Cell, Content>): set<Cell> {
    set c | c in content && TwoPhase.Pending(content[c])
  }

  // ----- the counts: every process counts the storages it is sensitive on that hold something

  ghost function Waiting(content: map<Cell, Content>, p: Process): set<Cell> {
    set c | c in content && c.process == p && TwoPhase.Occupied(content[c])
  }

  ghost predicate Counted(count: map<Process, nat>, content: map<Cell, Content>) {
    && (forall c :: c in content ==> c.process in count)
    && (forall p :: p in count ==> count[p] == |Waiting(content, p)|)
  }

  // What a storage adds to the count of its process.
  ghost function Load(c: Content): int {
    if TwoPhase.Occupied(c) then 1 else 0
  }

  lemma CountedAfter(count: map<Process, nat>, content: map<Cell, Content>, c: Cell, changed: Content, count': map<Process, nat>)
    requires Counted(count, content) && c in content && count'.Keys == count.Keys
    requires forall p :: p in count && p != c.process ==> count'[p] == count[p]
    requires count'[c.process] == count[c.process] + Load(changed) - Load(content[c])
    ensures Counted(count', content[c := changed])
  {
    var content' := content[c := changed];
    forall p | p in count
      ensures count'[p] == |Waiting(content', p)|
    {
      var before, after := Waiting(content, p), Waiting(content', p);
      if p != c.process || Load(changed) == Load(content[c]) {
        assert after == before;
      } else if Load(changed) > Load(content[c]) {
        assert after == before + {c};
      } else {
        assert before == after + {c};
      }
    }
  }

  ghost function Idle(processes: set<Process>): Runs
    reads processes
  {
    Runs([], map p | p in processes :: 0, map p | p in processes :: OptProcess(p.next), map p | p in processes :: OptProcess(p.prev))
  }

  ghost function Quiet(cells: set<Cell>): Updates
    reads cells
  {
    Updates([], map c | c in cells :: c.content, map c | c in cells :: OptCell(c.next))
  }

  lemma IdleAndQuiet(processes: set<Process>, cells: set<Cell>)
    requires forall p :: p in processes ==> p.activations == 0
    requires forall c :: c in cells ==> c.process in processes && !c.activated && TwoPhase.Legal(c.content)
    requires forall c :: c in cells ==> !TwoPhase.Occupied(c.content) && !TwoPhase.Pending(c.content)
    ensures var r, u := Idle(processes), Quiet(cells);
      && RunsOk(r, null) && MirrorsNext(processes, r.next) && MirrorsPrev(processes, r.prev) && MirrorsCount(processes, r.count)
      && UpdatesOk(u, null) && MirrorsCellNext(cells, u.next) && MirrorsContent(cells, u.content) && MirrorsActivated(cells, u.order)
      && Counted(r.count, u.content)
  {
    hide TwoPhase.Legal, TwoPhase.Pending, TwoPhase.Occupied;
    assert forall p :: p in processes ==> Waiting(Quiet(cells).content, p) == {};
  }

  lemma OccupiedIsCounted(count: map<Process, nat>, content: map<Cell, Content>, c: Cell)
    requires Counted(count, content) && c in content && TwoPhase.Occupied(content[c])
    ensures count[c.process] > 0
  {
    assert c in Waiting(content, c.process);
  }

  lemma RunListNotEmpty(r: Runs, head: Process?, content: map<Cell, Content>)
    requires RunsOk(r, head) && Counted(r.count, content)
    ensures head != null <==> exists c :: c in content && TwoPhase.Occupied(content[c])
  {
    if head != null {
      var p := r.order[0];
      var c :| c in Waiting(content, p);
    } else if c :| c in content && TwoPhase.Occupied(content[c]) {
      OccupiedIsCounted(r.count, content, c);
      assert c.process in r.order;
    }
  }

  lemma UpdateListNotEmpty(u: Updates, head: Cell?)
    requires UpdatesOk(u, head)
    ensures head != null <==> exists c :: c in u.content && TwoPhase.Pending(u.content[c])
  {
    if head != null {
      assert u.order[0] in u.content;
    } else if c :| c in u.content && TwoPhase.Pending(u.content[c]) {
      assert c in u.order;
    }
  }

  // ----- one clock and its two lists

  class Domain {
    var activeProcesses: Process?
    var activeStorages: Cell?
    ghost var runs: Runs
    ghost var updates: Updates
    ghost const processes: set<Process>
    ghost const cells: set<Cell>

    constructor (ghost processes: set<Process>, ghost cells: set<Cell>)
      requires forall p :: p in processes ==> p.activations == 0
      requires forall c :: c in cells ==> c.process in processes && !c.activated && TwoPhase.Legal(c.content)
      requires forall c :: c in cells ==> !TwoPhase.Occupied(c.content) && !TwoPhase.Pending(c.content)
      ensures Valid() && this.processes == processes && this.cells == cells
      ensures MirrorsContent(cells, updates.content)
    {
      hide Idle, Quiet, RunsOk, UpdatesOk, Counted, MirrorsNext, MirrorsPrev, MirrorsCount, MirrorsCellNext, MirrorsContent, MirrorsActivated;
      this.processes, this.cells := processes, cells;
      activeProcesses, activeStorages := null, null;
      runs, updates := Idle(processes), Quiet(cells);
      new;
      IdleAndQuiet(processes, cells);
    }

    ghost predicate RunsValid()
      reads this, processes
    {
      && RunsOk(runs, activeProcesses) && MirrorsCount(processes, runs.count)
      && MirrorsNext(processes, runs.next) && MirrorsPrev(processes, runs.prev)
    }

    ghost predicate UpdatesValid()
      reads this, cells
    {
      && UpdatesOk(updates, activeStorages) && MirrorsCellNext(cells, updates.next)
      && MirrorsContent(cells, updates.content) && MirrorsActivated(cells, updates.order)
    }

    ghost predicate Valid()
      reads this, processes, cells
    {
      RunsValid() && UpdatesValid() && Counted(runs.count, updates.content)
    }

    // A process is activated as often as storages of its hold something: a set flag, a full register, a
    // buffer or a list with an item. A storage waits for its update if something was asked of it.
    lemma Reasons(p: Process)
      requires Valid() && p in processes
      ensures p.activations == |set c | c in cells && c.process == p && match c.content
                case Flag(isSet, _, _) => isSet
                case Register(cur, _, _) => cur.Some?
                case Buffer(data, _, _, _, _) => data != []
                case List(items, _, _) => items != []|
    {
      hide RunsOk, MirrorsNext, MirrorsPrev, UpdatesOk, MirrorsCellNext, MirrorsActivated;
      assert forall c :: c in cells ==> (c.content.Flag? || c.content.Register? || c.content.Buffer? || c.content.List?);
      assert Waiting(updates.content, p) == set c | c in cells && c.process == p && match c.content
        case Flag(isSet, _, _) => isSet
        case Register(cur, _, _) => cur.Some?
        case Buffer(data, _, _, _, _) => data != []
        case List(items, _, _) => items != [];
    }

    lemma Awaits(c: Cell)
      requires Valid() && c in cells
      ensures c.activated <==> match c.content
        case Flag(isSet, wanted, updated) => updated || wanted != isSet
        case Register(_, written, cleared) => written.Some? || cleared
        case Buffer(_, pushes, popped, _, _) => pushes != [] || popped
        case List(_, appended, popped) => appended != [] || popped
    {
      hide RunsOk, MirrorsNext, MirrorsPrev, MirrorsCount, MirrorsCellNext, Counted, Linked, AllLegal;
      assert c in updates.content;
    }

    // Stores through a pointer to p's next, or to the head of the run list when p is null.
    method StoreNext(p: Process?, value: Process?, ghost next: map<Process, Option<Process>>)
      requires MirrorsNext(processes, next) && p in processes + {null}
      modifies this`activeProcesses, processes`next
      ensures MirrorsNext(processes, Behind(next, OptProcess(p), OptProcess(value)))
      ensures activeProcesses == if p == null then value else old(activeProcesses)
    {
      if p == null {
        activeProcesses := value;
      } else {
        p.next := value;
      }
    }

    method StorePrev(p: Process?, value: Process?, ghost prev: map<Process, Option<Process>>)
      requires MirrorsPrev(processes, prev) && p in processes + {null}
      modifies processes`prev
      ensures MirrorsPrev(processes, Behind(prev, OptProcess(p), OptProcess(value)))
    {
      if p != null {
        p.prev := value;
      }
    }

    // Puts a process in front of the run list.
    method PushProcess(p: Process)
      requires MirrorsNext(processes, runs.next) && MirrorsPrev(processes, runs.prev) && p in processes
      requires OptProcess(activeProcesses) == At(runs.order, 0) && activeProcesses in processes - {p} + {null}
      modifies this`activeProcesses, processes`next, processes`prev
      ensures activeProcesses == p
      ensures MirrorsNext(processes, Pushed(runs, p).next) && MirrorsPrev(processes, Pushed(runs, p).prev)
    {
      hide Insert, MirrorsNext, MirrorsPrev;
      var head := activeProcesses;
      StoreNext(p, head, runs.next);
      StorePrev(head, p, runs.prev);
      StorePrev(p, null, Behind(runs.prev, OptProcess(head), Some(p)));
      activeProcesses := p;
    }

    // Takes a process off the run list, wherever it is.
    method UnlinkProcess(p: Process, ghost k: nat)
      requires MirrorsNext(processes, runs.next) && MirrorsPrev(processes, runs.prev)
      requires k < |runs.order| && OptProcess(p.next) == At(runs.order, k + 1) && OptProcess(p.prev) == At(runs.order, k - 1)
      requires p.next in processes + {null} && p.prev in processes - {p} + {null}
      modifies this`activeProcesses, processes`next, processes`prev
      ensures MirrorsNext(processes, Removed(runs, k).next) && MirrorsPrev(processes, Removed(runs, k).prev)
      ensures if k == 0 then OptProcess(activeProcesses) == At(runs.order, 1) else activeProcesses == old(activeProcesses)
    {
      hide Remove, MirrorsNext, MirrorsPrev;
      var next := p.next;
      StoreNext(p.prev, next, runs.next);
      StorePrev(next, p.prev, runs.prev);
    }

    method SetActivations(p: Process, n: nat)
      requires MirrorsCount(processes, runs.count) && p in processes
      modifies p`activations
      ensures p.activations == n && MirrorsCount(processes, runs.count[p := n])
    {
      p.activations := n;
    }

    method ActivateProcess(p: Process)
      requires RunsValid() && p in processes
      modifies this`activeProcesses, this`runs, processes
      ensures RunsValid() && p in old(runs.count) && runs.count == old(runs.count)[p := old(runs.count)[p] + 1]
    {
      hide RunsOk, MirrorsNext, MirrorsPrev;
      SetActivations(p, p.activations + 1);
      if p.activations == 1 {
        PushedOk(runs, activeProcesses, p);
        HeadOf(runs, activeProcesses);
        PushProcess(p);
        runs := Pushed(runs, p);
      } else {
        CountOk(runs, activeProcesses, p, p.activations);
        runs := runs.(count := runs.count[p := p.activations]);
      }
    }

    method DequeueProcess(p: Process)
      requires RunsOk(runs, activeProcesses) && MirrorsNext(processes, runs.next) && MirrorsPrev(processes, runs.prev)
      requires p in processes && p in runs.count && runs.count[p] > 0
      modifies this`activeProcesses, this`runs, processes`next, processes`prev
      ensures RunsOk(runs, activeProcesses) && MirrorsNext(processes, runs.next) && MirrorsPrev(processes, runs.prev)
      ensures runs.count == old(runs.count)[p := 0]
    {
      hide RunsOk, MirrorsNext, MirrorsPrev, At;
      ghost var head := activeProcesses;
      ghost var k := PlaceOf(runs, head, p);
      Neighbours(p, k);
      UnlinkProcess(p, k);
      RemovedOk(runs, head, k, activeProcesses);
      runs := Removed(runs, k);
    }

    lemma Neighbours(p: Process, k: nat)
      requires MirrorsNext(processes, runs.next) && MirrorsPrev(processes, runs.prev) && p in processes
      requires runs.next[p] == At(runs.order, k + 1) && runs.prev[p] == At(runs.order, k - 1)
      requires k + 1 < |runs.order| ==> runs.order[k + 1] in runs.next
      requires 0 < k <= |runs.order| ==> runs.order[k - 1] in runs.next && runs.order[k - 1] != p
      ensures OptProcess(p.next) == At(runs.order, k + 1) && OptProcess(p.prev) == At(runs.order, k - 1)
      ensures p.next in processes + {null} && p.prev in processes - {p} + {null}
    {
    }

    method DeactivateProcess(p: Process)
      requires RunsValid() && p in processes && p.activations > 0
      modifies this`activeProcesses, this`runs, processes
      ensures RunsValid() && p in old(runs.count) && runs.count == old(runs.count)[p := old(runs.count)[p] - 1]
    {
      hide RunsOk, MirrorsNext, MirrorsPrev;
      SetActivations(p, p.activations - 1);
      if p.activations == 0 {
        DequeueProcess(p);
      } else {
        CountOk(runs, activeProcesses, p, p.activations);
        runs := runs.(count := runs.count[p := p.activations]);
      }
    }

    // Storage::RegisterUpdate
    method RegisterUpdate(c: Cell)
      requires MirrorsCellNext(cells, updates.next) && MirrorsActivated(cells, updates.order) && c in cells
      requires OptCell(activeStorages) == At(updates.order, 0)
      modifies this`activeStorages, c`next, c`activated
      ensures activeStorages == if c in updates.order then old(activeStorages) else c
      ensures MirrorsCellNext(cells, Changed(updates, c, c.content).next) && MirrorsActivated(cells, Changed(updates, c, c.content).order)
    {
      if !c.activated {
        InsertMembers(updates.order, 0, c);
        c.next := activeStorages;
        activeStorages := c;
        c.activated := true;
      }
    }

    method SetContent(c: Cell, changed: Content)
      requires MirrorsContent(cells, updates.content) && c in cells
      modifies c`content
      ensures c.content == changed && c in updates.content && MirrorsContent(cells, updates.content[c := changed])
    {
      c.content := changed;
    }

    // Records a change for the end of the cycle.
    method Record(c: Cell, changed: Content)
      requires UpdatesValid() && c in cells && TwoPhase.Legal(changed) && TwoPhase.Pending(changed)
      modifies this`activeStorages, this`updates, c`next, c`activated, c`content
      ensures UpdatesValid() && updates.content == old(updates.content)[c := changed]
    {
      hide UpdatesOk, MirrorsCellNext, MirrorsActivated, TwoPhase.Legal, TwoPhase.Pending, Insert, InsertNext;
      assert c in updates.content;
      hide MirrorsContent;
      UpdatesFacts(updates, activeStorages, c);
      ChangedOk(updates, activeStorages, c, changed);
      SetContent(c, changed);
      RegisterUpdate(c);
      updates := Changed(updates, c, changed);
    }

    // An operation on a storage: checked and, when it succeeds, recorded for the end of the cycle.
    method Request(c: Cell, r: TwoPhase.Request<nat>) returns (ok: bool)
      requires Valid() && c in cells && TwoPhase.Allowed(c.content, r)
      modifies this`activeStorages, this`updates, c`next, c`activated, c`content
      ensures Valid() && ok == TwoPhase.Accepted(old(c.content), r)
      ensures updates.content == if ok then old(updates.content)[c := TwoPhase.Requested(old(c.content), r)] else old(updates.content)
      ensures !ok ==> unchanged(this) && unchanged(c)
    {
      hide RunsOk, MirrorsNext, MirrorsPrev, MirrorsCount, UpdatesOk, MirrorsCellNext, MirrorsActivated, Counted;
      hide TwoPhase.Legal, TwoPhase.Pending, TwoPhase.Occupied, TwoPhase.Requested, TwoPhase.Allowed, TwoPhase.Accepted;
      var changed;
      ok, changed := TwoPhase.Perform(c.content, r);
      if ok {
        UpdatesFacts(updates, activeStorages, c);
        TwoPhase.RequestedIsLegal(c.content, r);
        CountedAfter(runs.count, updates.content, c, changed, runs.count);
        Record(c, changed);
      }
    }

    method Notify(c: Cell)
      requires RunsValid() && c.process in processes
      modifies this`activeProcesses, this`runs, processes
      ensures RunsValid() && c.process in old(runs.count)
      ensures runs.count == old(runs.count)[c.process := old(runs.count)[c.process] + 1]
    {
      ActivateProcess(c.process);
    }

    method Unnotify(c: Cell)
      requires RunsValid() && c.process in processes && c.process.activations > 0
      modifies this`activeProcesses, this`runs, processes
      ensures RunsValid() && c.process in old(runs.count)
      ensures runs.count == old(runs.count)[c.process := old(runs.count)[c.process] - 1]
    {
      DeactivateProcess(c.process);
    }

    // Flag::Update, Register::Update
    method UpdateSimple(c: Cell)
      requires RunsValid() && c.process in processes && TwoPhase.Legal(c.content) && TwoPhase.Pending(c.content)
      requires (c.content.Flag? || c.content.Register?) && (TwoPhase.Occupied(c.content) ==> c.process.activations > 0)
      modifies this`activeProcesses, this`runs, processes, c`content
      ensures RunsValid() && c.content == TwoPhase.Updated(old(c.content)) && c.process in old(runs.count)
      ensures CountMoved(old(runs.count), runs.count, c.process, Load(c.content) - Load(old(c.content)))
    {
      hide RunsOk, MirrorsNext, MirrorsPrev, MirrorsCount;
      CountIs(processes, runs.count, c.process);
      match c.content
      case Flag(isSet, wanted, _) =>
        if wanted && !isSet {
          Notify(c);
        } else if isSet && !wanted {
          Unnotify(c);
        }
        c.content := TwoPhase.Flag(wanted, wanted, false);
      case Register(cur, written, cleared) =>
        if written.Some? {
          if cur.None? {
            Notify(c);
          }
          c.content := TwoPhase.Register(written, None, false);
        } else {
          Unnotify(c);
          c.content := TwoPhase.Register(None, None, false);
        }
    }

    static method PushAll(data: seq<nat>, pushes: seq<nat>) returns (r: seq<nat>)
      ensures r == data + pushes
    {
      r := data;
      for i := 0 to |pushes|
        invariant r == data + pushes[..i]
      {
        r := r + [pushes[i]];
      }
    }

    // Buffer::Update
    method UpdateBuffer(c: Cell)
      requires RunsValid() && c.process in processes && TwoPhase.Legal(c.content)
      requires c.content.Buffer? && (TwoPhase.Occupied(c.content) ==> c.process.activations > 0)
      modifies this`activeProcesses, this`runs, processes, c`content
      ensures RunsValid() && c.content == TwoPhase.Updated(old(c.content)) && c.process in old(runs.count)
      ensures CountMoved(old(runs.count), runs.count, c.process, Load(c.content) - Load(old(c.content)))
    {
      hide RunsOk, MirrorsNext, MirrorsPrev;
      var data, pushes := c.content.data, c.content.pushes;
      if |pushes| > 0 {
        if data == [] {
          Notify(c);
        }
        data := PushAll(data, pushes);
      }
      assert data == c.content.data + pushes;
      if c.content.popped {
        data := data[1..];
        if data == [] {
          Unnotify(c);
        }
      }
      c.content := TwoPhase.Buffer(data, [], false, c.content.maxSize, c.content.maxPushes);
    }

    // LinkedList::Update, on the sequence that the list stands for
    method UpdateList(c: Cell)
      requires RunsValid() && c.process in processes && TwoPhase.Legal(c.content)
      requires c.content.List? && (TwoPhase.Occupied(c.content) ==> c.process.activations > 0)
      modifies this`activeProcesses, this`runs, processes, c`content
      ensures RunsValid() && c.content == TwoPhase.Updated(old(c.content)) && c.process in old(runs.count)
      ensures CountMoved(old(runs.count), runs.count, c.process, Load(c.content) - Load(old(c.content)))
    {
      hide RunsOk, MirrorsNext, MirrorsPrev;
      var items := c.content.items;
      if c.content.popped {
        if |items| == 1 {
          Unnotify(c);
        }
        items := items[1..];
      }
      if c.content.appended != [] {
        if items == [] {
          Notify(c);
        }
        items := items + c.content.appended;
      }
      c.content := TwoPhase.List(items, [], false);
    }

    method Update(c: Cell)
      requires RunsValid() && c.process in processes && TwoPhase.Legal(c.content) && TwoPhase.Pending(c.content)
      requires TwoPhase.Occupied(c.content) ==> c.process.activations > 0
      modifies this`activeProcesses, this`runs, processes, c`content
      ensures RunsValid() && c.content == TwoPhase.Updated(old(c.content)) && c.process in old(runs.count)
      ensures CountMoved(old(runs.count), runs.count, c.process, Load(c.content) - Load(old(c.content)))
    {
      hide RunsOk, MirrorsNext, MirrorsPrev, MirrorsCount, TwoPhase.Legal, TwoPhase.Occupied, TwoPhase.Pending, TwoPhase.Updated, CountMoved;
      match c.content {
        case Flag(_, _, _) => UpdateSimple(c);
        case Register(_, _, _) => UpdateSimple(c);
        case Buffer(_, _, _, _, _) => UpdateBuffer(c);
        case List(_, _, _) => UpdateList(c);
      }
    }

    // The state while the update list is walked, with c the next storage on it.
    ghost predicate Working(c: Cell?)
      reads this, processes, cells
    {
      && RunsValid() && Counted(runs.count, updates.content) && UpdatesOk(updates, c)
      && MirrorsCellNext(cells, updates.next) && MirrorsContent(cells, updates.content) && MirrorsActivated(cells, updates.order)
    }

    lemma WorkingFacts(c: Cell)
      requires Working(c)
      ensures updates.order != [] && updates.order[0] == c && c in cells && c in updates.content && c in updates.next
      ensures updates.content[c] == c.content && TwoPhase.Pending(c.content) && TwoPhase.Legal(c.content)
      ensures OptCell(c.next) == updates.next[c]
      ensures c.process in processes && (TwoPhase.Occupied(c.content) ==> c.process.activations > 0)
    {
      assert c == updates.order[0] && c in updates.content;
      if TwoPhase.Occupied(c.content) {
        OccupiedIsCounted(runs.count, updates.content, c);
      }
    }

    method Deactivate(c: Cell)
      requires c in cells && updates.order != [] && updates.order[0] == c && Distinct(updates.order)
      requires MirrorsActivated(cells, updates.order)
      modifies c`activated
      ensures MirrorsActivated(cells, Remove(updates.order, 0))
    {
      RemoveMembers(updates.order, 0);
      c.activated := false;
    }

    method UpdateCell(c: Cell)
      requires Working(c)
      modifies this`activeProcesses, this`runs, processes, c`content
      ensures RunsValid() && c in updates.content && c.content == TwoPhase.Updated(updates.content[c])
      ensures Counted(runs.count, updates.content[c := c.content]) && MirrorsContent(cells, updates.content[c := c.content])
    {
      hide RunsOk, MirrorsNext, MirrorsPrev, MirrorsCount, UpdatesOk, MirrorsCellNext, MirrorsActivated, Counted;
      hide TwoPhase.Legal, TwoPhase.Occupied, TwoPhase.Pending, TwoPhase.Updated;
      WorkingFacts(c);
      ghost var count := runs.count;
      Update(c);
      CountedAfter(count, updates.content, c, c.content, runs.count);
    }

    // One round of the loop below.
    method UpdateFirst(c: Cell)
      requires Working(c)
      modifies this`activeProcesses, this`runs, this`updates, processes, c`content, c`activated
      ensures Working(c.next) && old(updates.order != [] && updates.order[0] == c && c in updates.content)
      ensures updates == old(UpdatedFirst(updates)) && |updates.order| < |old(updates.order)|
    {
      hide RunsOk, MirrorsNext, MirrorsPrev, MirrorsCount, UpdatesOk, MirrorsCellNext, MirrorsContent, MirrorsActivated, Counted;
      hide TwoPhase.Legal, TwoPhase.Occupied, TwoPhase.Pending, TwoPhase.Updated, Remove, Distinct;
      WorkingFacts(c);
      UpdatedFirstOk(updates, c, c.next);
      UpdateCell(c);
      Deactivate(c);
      updates := UpdatedFirst(updates);
    }

    // Kernel::UpdateStorages, for one clock: every storage that changed is updated exactly once.
    method UpdateStorages() returns (updated: bool)
      requires Valid()
      modifies this`activeProcesses, this`activeStorages, this`runs, this`updates, processes, cells`content, cells`activated
      ensures Valid() && activeStorages == null && updates.order == []
      ensures updates.content == UpdatedAll(old(updates.content), AllPending(old(updates.content)))
      ensures updated == (AllPending(old(updates.content)) != {})
      ensures activeProcesses != null <==> exists c :: c in updates.content && TwoPhase.Occupied(updates.content[c])
    {
      hide RunsOk, MirrorsNext, MirrorsPrev, MirrorsCount, UpdatesOk, MirrorsCellNext, MirrorsContent, MirrorsActivated, Counted;
      hide TwoPhase.Legal, TwoPhase.Occupied, TwoPhase.Pending, TwoPhase.Updated, UpdatedAll, AllPending, UpdatedFirst;
      ghost var content := updates.content;
      ghost var done: set<Cell> := {};
      updated := false;
      var c := activeStorages;
      NothingUpdated(updates, c);
      while c != null
        invariant Working(c)
        invariant Halfway(content, done, updates) && (updated <==> done != {})
        decreases |updates.order|
      {
        WorkingFacts(c);
        OneMoreUpdated(content, done, updates, c);
        UpdateFirst(c);
        updated, done := true, done + {c};
        c := c.next;
      }
      EverythingUpdated(content, done, updates);
      RunListNotEmpty(runs, activeProcesses, updates.content);
      activeStorages := null;
    }

    // A flag that is constructed set starts out clear, with its set state pending.
    method InitFlag(c: Cell)
      requires Valid() && c in cells && c.content == TwoPhase.Flag(false, false, false)
      modifies this`activeStorages, this`updates, c`next, c`activated, c`content
      ensures Valid() && updates.content == old(updates.content)[c := TwoPhase.Flag(false, true, false)]
    {
      hide RunsOk, MirrorsNext, MirrorsPrev, MirrorsCount, UpdatesOk, MirrorsCellNext, MirrorsActivated, Counted;
      CountedAfter(runs.count, updates.content, c, TwoPhase.Flag(false, true, false), runs.count);
      Record(c, TwoPhase.Flag(false, true, false));
    }

    // Any run: requests in any order, and ends of cycles among them.
    method Run(steps: seq<Step>)
      requires Valid() && forall i :: 0 <= i < |steps| && steps[i].Ask? ==> steps[i].cell in cells
      modifies this`activeProcesses, this`activeStorages, this`runs, this`updates, processes, cells
      ensures Valid() && updates.content == After(old(updates.content), steps, |steps|)
    {
      hide RunsOk, MirrorsNext, MirrorsPrev, MirrorsCount, UpdatesOk, MirrorsCellNext, MirrorsActivated, Counted;
      hide TwoPhase.Allowed, TwoPhase.Accepted, TwoPhase.Requested, UpdatedAll, AllPending;
      for i := 0 to |steps|
        invariant Valid() && updates.content == After(old(updates.content), steps, i)
      {
        match steps[i]
        case Ask(c, r) =>
          if TwoPhase.Allowed(c.content, r) {
            var ok := Request(c, r);
          }
        case EndCycle =>
          var updated := UpdateStorages();
      }
    }
  }

  datatype Step = Ask(cell: Cell, request: TwoPhase.Request<nat>) | EndCycle

  // What the storages hold after the first n steps of a run.
  ghost function After(content: map<Cell, Content>, steps: seq<Step>, n: nat): map<Cell, Content>
    requires n <= |steps|
  {
    if n == 0 then content
    else
      var before := After(content, steps, n - 1);
      match steps[n - 1]
      case EndCycle => UpdatedAll(before, AllPending(before))
      case Ask(c, r) =>
        if c in before && TwoPhase.Allowed(before[c], r) && TwoPhase.Accepted(before[c], r)
        then before[c := TwoPhase.Requested(before[c], r)] else before
  }

  ghost predicate CountMoved(count: map<Process, nat>, count': map<Process, nat>, p: Process, by_: int) {
    p in count && count[p] + by_ >= 0 && count' == count[p := count[p] + by_]
  }

  // The walk has updated the storages in done and none of those still on the list.
  ghost predicate Halfway(content: map<Cell, Content>, done: set<Cell>, u: Updates) {
    AllLegal(content) && done <= AllPending(content) && u.content == UpdatedAll(content, done)
  }

  lemma NothingUpdated(u: Updates, head: Cell?)
    requires UpdatesOk(u, head)
    ensures Halfway(u.content, {}, u)
  {
  }

  lemma OneMoreUpdated(content: map<Cell, Content>, done: set<Cell>, u: Updates, c: Cell)
    requires Halfway(content, done, u) && u.order != [] && u.order[0] == c && c in u.content && TwoPhase.Pending(u.content[c])
    ensures Halfway(content, done + {c}, UpdatedFirst(u))
  {
    hide TwoPhase.Legal, TwoPhase.Pending, TwoPhase.Updated;
    if c in done {
      TwoPhase.UpdatedIsLegal(content[c]);
    }
  }

  lemma EverythingUpdated(content: map<Cell, Content>, done: set<Cell>, u: Updates)
    requires Halfway(content, done, u) && UpdatesOk(u, null)
    ensures u.order == [] && done == AllPending(content)
  {
    hide TwoPhase.Legal, TwoPhase.Pending, TwoPhase.Updated;
    StillPending(content, done, u);
    assert AllPending(u.content) == {} && AllPending(content) == done + (AllPending(content) - done);
  }

  lemma StillPending(content: map<Cell, Content>, done: set<Cell>, u: Updates)
    requires Halfway(content, done, u)
    ensures AllPending(content) - done <= AllPending(u.content)
  {
    hide TwoPhase.Legal, TwoPhase.Pending, TwoPhase.Updated;
  }

  lemma UpdatesFacts(u: Updates, head: Cell?, c: Cell)
    requires UpdatesOk(u, head) && c in u.content
    ensures TwoPhase.Legal(u.content[c]) && OptCell(head) == At(u.order, 0)
    ensures c in u.order <==> TwoPhase.Pending(u.content[c])
  {
  }

  lemma CountIs(processes: set<Process>, count: map<Process, nat>, p: Process)
    requires MirrorsCount(processes, count) && p in processes
    ensures p in count && count[p] == p.activations
  {
  }

  lemma CountOk(r: Runs, head: Process?, p: Process, n: nat)
    requires RunsOk(r, head) && p in r.count && r.count[p] > 0 && n > 0
    ensures RunsOk(r.(count := r.count[p := n]), head)
  {
  }

  lemma HeadOf(r: Runs, head: Process?)
    requires RunsOk(r, head)
    ensures OptProcess(head) == At(r.order, 0) && (head != null ==> head in r.next && head in r.count && r.count[head] > 0)
  {
  }

  lemma PlaceOf(r: Runs, head: Process?, p: Process) returns (k: nat)
    requires RunsOk(r, head) && p in r.count && r.count[p] > 0
    ensures k < |r.order| && r.order[k] == p && p in r.next && p in r.prev
    ensures r.next[p] == At(r.order, k + 1) && r.prev[p] == At(r.order, k - 1)
    ensures k + 1 < |r.order| ==> r.order[k + 1] in r.next && r.order[k + 1] != p
    ensures k > 0 ==> r.order[k - 1] in r.next && r.order[k - 1] != p
  {
    assert p in r.order;
    k :| 0 <= k < |r.order| && r.order[k] == p;
    LinkedAt(r.order, r.next, OptProcess(head), k);
    BackLinkedAt(r.order, r.prev, k);
  }
}
