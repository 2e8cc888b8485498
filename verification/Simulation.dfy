// sim/kernel.cpp, sim/clock.hpp, sim/storage.hpp: the whole kernel, with any number of clock domains
// on one queue of clocks.
module Simulation {
  import Chains
  import opened Options
  import opened ClockQueue
  import RunList
  import TwoPhase

  type Cell = RunList.Cell
  type Content = RunList.Content
  type Request = TwoPhase.Request<nat>

  // ----- the kernel as values: when each clock is due, and what the storages of each domain hold

  datatype World = World(schedule: Schedule, contents: map<Clock, map<Cell, Content>>)

  // Some process is active, as its storage holds something, or some storage is to be updated.
  ghost predicate BusyIn(content: map<Cell, Content>) {
    exists s :: s in content && (TwoPhase.Occupied(content[s]) || TwoPhase.Pending(content[s]))
  }

  ghost function BusyClocks(contents: map<Clock, map<Cell, Content>>): set<Clock> {
    set c | c in contents && BusyIn(contents[c])
  }

  // A clock with anything to do is scheduled, for one of its own ticks; nothing is due at cycle 0.
  ghost predicate WorldOk(w: World) {
    && OnTicks(w.schedule) && w.schedule.due.Keys <= w.contents.Keys
    && (forall c :: c in w.contents ==> c.period > 0 && RunList.AllLegal(w.contents[c]))
    && (forall c :: c in w.contents && BusyIn(w.contents[c]) ==> c in w.schedule.due)
    && (w.schedule.now == 0 ==> Running(w.schedule) == {})
  }

  // An operation on a storage, a request for arbitration, or a move of time.
  datatype Step =
    | Ask(clock: Clock, cell: Cell, request: Request)
    | Arbitrate(clock: Clock)
    | Begin
    | EndCycle

  ghost predicate Takes(w: World, c: Clock, s: Cell, r: Request) {
    c in w.contents && s in w.contents[c] && TwoPhase.Allowed(w.contents[c][s], r) && TwoPhase.Accepted(w.contents[c][s], r)
  }

  ghost function Asked(w: World, c: Clock, s: Cell, r: Request): World
    requires Takes(w, c, s, r) && c.period > 0
  {
    World(Activated(w.schedule, c), w.contents[c := w.contents[c][s := TwoPhase.Requested(w.contents[c][s], r)]])
  }

  // The storages of the clocks that run are updated, those of all others wait.
  ghost function UpdatedDue(w: World): map<Clock, map<Cell, Content>> {
    map c | c in w.contents :: UpdatedIf(w.contents[c], c in Running(w.schedule))
  }

  ghost function UpdatedIf(content: map<Cell, Content>, runs: bool): map<Cell, Content> {
    if runs then RunList.UpdatedAll(content, RunList.AllPending(content)) else content
  }

  ghost predicate Moves(w: World, step: Step, w': World)
    requires WorldOk(w)
  {
    match step
    case Ask(c, s, r) => w' == if Takes(w, c, s, r) then Asked(w, c, s, r) else w
    case Arbitrate(c) => w' == if c in w.contents then World(Activated(w.schedule, c), w.contents) else w
    case Begin =>
      && w'.contents == w.contents && w'.schedule.due == w.schedule.due
      && if w.schedule.due.Keys == {} then w' == w else IsEarliest(w.schedule.due, w'.schedule.now)
    case EndCycle => w'.contents == UpdatedDue(w) && Finished(w.schedule, BusyClocks(w'.contents), w'.schedule)
  }

  lemma AskedOk(w: World, c: Clock, s: Cell, r: Request)
    requires WorldOk(w) && Takes(w, c, s, r)
    ensures WorldOk(Asked(w, c, s, r))
  {
    hide TwoPhase.Legal, TwoPhase.Pending, TwoPhase.Occupied, TwoPhase.Allowed, TwoPhase.Accepted, TwoPhase.Requested, NextTick, OnTicks;
    ActivatedOnTicks(w.schedule, c);
    TwoPhase.RequestedIsLegal(w.contents[c][s], r);
  }

  // A clock may be scheduled for its arbitrators alone.
  lemma WokenOk(w: World, c: Clock)
    requires WorldOk(w) && c in w.contents
    ensures WorldOk(World(Activated(w.schedule, c), w.contents))
  {
    hide NextTick, OnTicks, BusyIn, RunList.AllLegal;
    ActivatedOnTicks(w.schedule, c);
  }

  lemma BegunOk(w: World, w': World)
    requires WorldOk(w) && Moves(w, Step.Begin, w')
    ensures WorldOk(w') && w.schedule.now <= w'.schedule.now
  {
    hide BusyIn, RunList.AllLegal;
    if c :| c in w.schedule.due && w.schedule.now == 0 {
      assert c !in Running(w.schedule);
    }
  }

  lemma UpdatedLegal(content: map<Cell, Content>)
    requires RunList.AllLegal(content)
    ensures RunList.AllLegal(RunList.UpdatedAll(content, RunList.AllPending(content)))
    ensures RunList.AllPending(RunList.UpdatedAll(content, RunList.AllPending(content))) == {}
  {
    hide TwoPhase.Legal, TwoPhase.Pending, TwoPhase.Updated;
    forall s | s in content
      ensures TwoPhase.Legal(TwoPhase.Updated(content[s])) && !TwoPhase.Pending(TwoPhase.Updated(content[s]))
    {
      TwoPhase.UpdatedIsLegal(content[s]);
    }
  }

  lemma EndedOk(w: World, w': World)
    requires WorldOk(w) && Moves(w, Step.EndCycle, w')
    ensures WorldOk(w') && (w'.schedule.due.Keys != {} ==> w.schedule.now < w'.schedule.now)
  {
    hide BusyIn, RunList.AllLegal, RunList.AllPending, RunList.UpdatedAll, OnTicks;
    FinishedOnTicks(w.schedule, BusyClocks(w'.contents), w'.schedule);
    forall c | c in w'.contents
      ensures c.period > 0 && RunList.AllLegal(w'.contents[c]) && (BusyIn(w'.contents[c]) ==> c in w'.schedule.due)
    {
      UpdatedLegal(w.contents[c]);
      assert BusyIn(w'.contents[c]) ==> c in BusyClocks(w'.contents);
    }
  }

  // ----- runs

  ghost predicate IsRun(worlds: seq<World>, steps: seq<Step>) {
    && |worlds| == |steps| + 1 && (forall i :: 0 <= i < |worlds| ==> WorldOk(worlds[i]))
    && forall i, j :: 0 <= i < j < |worlds| && j == i + 1 ==> Moves(worlds[i], steps[i], worlds[j])
  }

  // Whatever is asked of a storage waits for the next tick of its own clock, and time does not pass
  // over that tick.
  lemma {:induction false} PendingUntilTick(worlds: seq<World>, steps: seq<Step>, c: Clock, s: Cell, i: nat, j: nat)
    requires IsRun(worlds, steps) && i <= j < |worlds|
    requires c in worlds[i].contents && s in worlds[i].contents[c] && TwoPhase.Pending(worlds[i].contents[c][s])
    requires c in worlds[i].schedule.due
    requires forall k :: i <= k < j && steps[k].EndCycle? ==> worlds[k].schedule.now != worlds[i].schedule.due[c]
    ensures c in worlds[j].contents && s in worlds[j].contents[c] && TwoPhase.Pending(worlds[j].contents[c][s])
    ensures c in worlds[j].schedule.due && worlds[j].schedule.due[c] == worlds[i].schedule.due[c]
    ensures worlds[j].schedule.now <= worlds[j].schedule.due[c]
    decreases j
  {
    hide TwoPhase.Pending, TwoPhase.Legal, TwoPhase.Allowed, TwoPhase.Accepted, TwoPhase.Requested, NextTick, BusyIn;
    if i < j {
      PendingUntilTick(worlds, steps, c, s, i, j - 1);
      assert Moves(worlds[j - 1], steps[j - 1], worlds[j]);
      StillWaits(worlds[j - 1], steps[j - 1], worlds[j], c, s);
    }
  }

  lemma StillWaits(w: World, step: Step, w': World, c: Clock, s: Cell)
    requires WorldOk(w) && Moves(w, step, w')
    requires c in w.contents && s in w.contents[c] && TwoPhase.Pending(w.contents[c][s]) && c in w.schedule.due
    requires step.EndCycle? ==> w.schedule.now != w.schedule.due[c]
    ensures c in w'.contents && s in w'.contents[c] && TwoPhase.Pending(w'.contents[c][s])
    ensures c in w'.schedule.due && w'.schedule.due[c] == w.schedule.due[c]
  {
    hide TwoPhase.Pending, TwoPhase.Legal, TwoPhase.Allowed, TwoPhase.Accepted, TwoPhase.Requested, NextTick, BusyIn;
    if step.Ask? && Takes(w, step.clock, step.cell, step.request) {
      TwoPhase.RequestedIsLegal(w.contents[step.clock][step.cell], step.request);
    }
  }

  // At that tick it is updated.
  lemma UpdatedAtTick(worlds: seq<World>, steps: seq<Step>, c: Clock, s: Cell, i: nat)
    requires IsRun(worlds, steps) && i < |steps| && steps[i].EndCycle?
    requires c in worlds[i].contents && s in worlds[i].contents[c] && TwoPhase.Pending(worlds[i].contents[c][s])
    ensures c in worlds[i].schedule.due && c in worlds[i + 1].contents && s in worlds[i + 1].contents[c]
    ensures worlds[i + 1].contents[c][s] ==
      if worlds[i].schedule.due[c] == worlds[i].schedule.now then TwoPhase.Updated(worlds[i].contents[c][s])
      else worlds[i].contents[c][s]
  {
    hide TwoPhase.Pending, TwoPhase.Updated, TwoPhase.Legal, Finished;
    assert Moves(worlds[i], steps[i], worlds[i + 1]);
    assert BusyIn(worlds[i].contents[c]);
  }

  // When the queue of clocks is empty there is nothing left to do anywhere.
  lemma EmptyQueueIsIdle(w: World, c: Clock, s: Cell)
    requires WorldOk(w) && w.schedule.due.Keys == {} && c in w.contents && s in w.contents[c]
    ensures !TwoPhase.Occupied(w.contents[c][s]) && !TwoPhase.Pending(w.contents[c][s])
  {
    assert !BusyIn(w.contents[c]);
  }

  // ----- the kernel

  // No two clocks share a domain, a process or a storage.
  ghost predicate Separate(clocks: set<Clock>) {
    forall c, d :: c in clocks && d in clocks && c != d ==> Apart(c.domain, d.domain)
  }

  ghost predicate Apart(d: RunList.Domain, e: RunList.Domain) {
    d != e && d.processes !! e.processes && d.cells !! e.cells
  }

  ghost function Domains(clocks: set<Clock>): set<RunList.Domain> {
    set c | c in clocks :: c.domain
  }

  ghost function Processes(clocks: set<Clock>): set<RunList.Process> {
    set c, p | c in clocks && p in c.domain.processes :: p
  }

  ghost function Cells(clocks: set<Clock>): set<Cell> {
    set c, s | c in clocks && s in c.domain.cells :: s
  }

  ghost predicate DomainsValid(clocks: set<Clock>)
    reads Domains(clocks), Processes(clocks), Cells(clocks)
  {
    forall c :: c in clocks ==> c.domain.Valid()
  }

  ghost function Contents(clocks: set<Clock>): map<Clock, map<Cell, Content>>
    reads Domains(clocks)
  {
    map c | c in clocks :: c.domain.updates.content
  }

  // A clock is busy exactly if its storages say so.
  lemma BusyIsBusyIn(d: RunList.Domain)
    requires d.Valid()
    ensures d.activeProcesses != null || d.activeStorages != null <==> BusyIn(d.updates.content)
  {
    hide RunList.RunsOk, RunList.Counted, TwoPhase.Occupied, TwoPhase.Pending;
    RunList.RunListNotEmpty(d.runs, d.activeProcesses, d.updates.content);
    RunList.UpdateListNotEmpty(d.updates, d.activeStorages);
  }

  ghost function State(k: Kernel): World
    reads k, Domains(k.clocks)
  {
    World(k.State(), Contents(k.clocks))
  }

  ghost predicate Valid(k: Kernel)
    reads k, k.clocks`next, k.clocks`activated, k.clocks`cycle
    reads Domains(k.clocks), Processes(k.clocks), Cells(k.clocks)
  {
    k.Valid() && Separate(k.clocks) && DomainsValid(k.clocks) && WorldOk(State(k))
  }

  // A storage is on the update list of its domain exactly while something is asked of it.
  lemma CellFacts(d: RunList.Domain, s: Cell)
    requires d.Valid() && s in d.cells
    ensures s in d.updates.content && d.updates.content[s] == s.content
    ensures TwoPhase.Legal(s.content) && (s.activated <==> TwoPhase.Pending(s.content))
  {
    hide RunList.RunsOk, RunList.Counted, TwoPhase.Pending, TwoPhase.Legal;
  }

  // The operation itself, in the domain of its clock; no other domain is concerned.
  method Record(ghost clocks: set<Clock>, clock: Clock, cell: Cell, r: Request) returns (ok: bool)
    requires Separate(clocks) && DomainsValid(clocks)
    requires clock in clocks && cell in clock.domain.cells && TwoPhase.Allowed(cell.content, r)
    modifies clock.domain, cell
    ensures DomainsValid(clocks) && ok == TwoPhase.Accepted(old(cell.content), r)
    ensures ok ==> cell.activated
    ensures ok ==> Contents(clocks) == old(Contents(clocks)[clock := clock.domain.updates.content[cell := TwoPhase.Requested(cell.content, r)]])
    ensures !ok ==> Contents(clocks) == old(Contents(clocks)) && unchanged(cell)
  {
    hide RunList.Domain.Valid;
    hide TwoPhase.Allowed, TwoPhase.Accepted, TwoPhase.Requested, TwoPhase.Legal, TwoPhase.Pending;
    CellFacts(clock.domain, cell);
    ghost var before := cell.content;
    ok := clock.domain.Request(cell, r);
    CellFacts(clock.domain, cell);
    if ok {
      TwoPhase.RequestedIsLegal(before, r);
    }
  }

  lemma ApartFrom(clocks: set<Clock>, c: Clock, d: Clock)
    requires Separate(clocks) && c in clocks && d in clocks && c != d
    ensures Apart(c.domain, d.domain)
  {
  }

  lemma DomainOf(clocks: set<Clock>, c: Clock)
    requires DomainsValid(clocks) && c in clocks
    ensures c.domain.Valid()
  {
  }

  lemma AskMoves(w: World, c: Clock, s: Cell, r: Request, ok: bool, first: bool, w': World)
    requires WorldOk(w) && c in w.contents && s in w.contents[c] && TwoPhase.Allowed(w.contents[c][s], r)
    requires ok == TwoPhase.Accepted(w.contents[c][s], r) && first == !TwoPhase.Pending(w.contents[c][s])
    requires w'.schedule == if ok && first then Activated(w.schedule, c) else w.schedule
    requires w'.contents == if ok then w.contents[c := w.contents[c][s := TwoPhase.Requested(w.contents[c][s], r)]] else w.contents
    ensures Moves(w, Step.Ask(c, s, r), w') && WorldOk(w')
  {
    hide TwoPhase.Legal, TwoPhase.Pending, TwoPhase.Occupied, TwoPhase.Allowed, TwoPhase.Accepted, TwoPhase.Requested, NextTick, OnTicks;
    if ok {
      assert !first ==> BusyIn(w.contents[c]);
      AskedOk(w, c, s, r);
    }
  }

  // Puts a clock on the queue; the domains are not concerned.
  method Wake(k: Kernel, clock: Clock, needed: bool)
    requires k.Valid() && clock in k.clocks && DomainsValid(k.clocks)
    modifies k`activeClocks, k`list, k.clocks`next, k.clocks`cycle, k.clocks`activated
    ensures k.Valid() && DomainsValid(k.clocks) && Contents(k.clocks) == old(Contents(k.clocks))
    ensures k.State() == if needed then old(Activated(k.State(), clock)) else old(k.State())
  {
    hide WellLinked, Mirrors, Activated, RunList.Domain.Valid;
    if needed {
      k.ActivateClock(clock);
    }
  }

  // An operation on a storage. The first change of a storage in a cycle puts its clock on the queue.
  method Ask(k: Kernel, clock: Clock, cell: Cell, r: Request) returns (ok: bool)
    requires Valid(k) && clock in k.clocks && cell in clock.domain.cells && TwoPhase.Allowed(cell.content, r)
    modifies k`activeClocks, k`list, k.clocks`next, k.clocks`cycle, k.clocks`activated
    modifies clock.domain, cell
    ensures Valid(k) && ok == TwoPhase.Accepted(old(cell.content), r)
    ensures Moves(old(State(k)), Step.Ask(clock, cell, r), State(k))
  {
    hide WorldOk, WellLinked, Mirrors, Activated, Moves, DomainsValid, Separate;
    hide RunList.Domain.Valid;
    hide TwoPhase.Allowed, TwoPhase.Accepted, TwoPhase.Requested, TwoPhase.Pending;
    ghost var w := State(k);
    DomainOf(k.clocks, clock);
    CellFacts(clock.domain, cell);
    var first := !cell.activated;
    ok := Record(k.clocks, clock, cell, r);
    Wake(k, clock, first && cell.activated);
    AskMoves(w, clock, cell, r, ok, first, State(k));
  }

  // ----- the start: nothing held, nothing asked, except for the flags that are constructed set

  // A kernel over clocks whose domains are as they are constructed.
  method Start(ghost clocks: set<Clock>) returns (k: Kernel)
    requires Separate(clocks) && DomainsValid(clocks)
    requires forall c :: c in clocks ==> c.period > 0 && !c.activated
    requires forall c, s :: c in clocks && s in c.domain.cells ==> !TwoPhase.Occupied(s.content) && !TwoPhase.Pending(s.content)
    ensures fresh(k) && k.clocks == clocks && Valid(k) && k.State() == Schedule(0, map[])
  {
    hide RunList.Domain.Valid, Separate, TwoPhase.Occupied, TwoPhase.Pending, WorldOk, WellLinked, Mirrors;
    k := new Kernel(clocks);
    QuietWorld(k);
  }

  lemma QuietWorld(k: Kernel)
    requires k.Valid() && Separate(k.clocks) && DomainsValid(k.clocks) && k.State() == Schedule(0, map[])
    requires forall c, s :: c in k.clocks && s in c.domain.cells ==> !TwoPhase.Occupied(s.content) && !TwoPhase.Pending(s.content)
    ensures Valid(k)
  {
    hide RunList.RunsOk, RunList.Counted, TwoPhase.Occupied, TwoPhase.Pending, TwoPhase.Legal, WellLinked;
    forall c | c in k.clocks
      ensures !BusyIn(c.domain.updates.content) && RunList.AllLegal(c.domain.updates.content)
    {
      assert c.domain.Valid();
      assert forall s :: s in c.domain.updates.content ==> c.domain.updates.content[s] == s.content;
    }
  }

  method RecordSet(ghost clocks: set<Clock>, clock: Clock, cell: Cell)
    requires Separate(clocks) && DomainsValid(clocks)
    requires clock in clocks && cell in clock.domain.cells && cell.content == TwoPhase.Flag(false, false, false)
    modifies clock.domain, cell
    ensures DomainsValid(clocks)
    ensures Contents(clocks) == old(Contents(clocks)[clock := clock.domain.updates.content[cell := TwoPhase.Flag(false, true, false)]])
  {
    hide RunList.Domain.Valid;
    clock.domain.InitFlag(cell);
  }

  lemma SetMoves(w: World, c: Clock, s: Cell)
    requires WorldOk(w) && c in w.contents && s in w.contents[c] && w.contents[c][s] == TwoPhase.Flag(false, false, false)
    ensures WorldOk(World(Activated(w.schedule, c), w.contents[c := w.contents[c][s := TwoPhase.Flag(false, true, false)]]))
  {
    hide NextTick, OnTicks;
    ActivatedOnTicks(w.schedule, c);
  }

  // An arbitrator asks to be run in the arbitrate phase of its clock's next cycle, in which it is
  // forgotten again.
  method RequestArbitration(k: Kernel, clock: Clock)
    requires Valid(k) && clock in k.clocks
    modifies k`activeClocks, k`list, k.clocks`next, k.clocks`cycle, k.clocks`activated
    ensures Valid(k) && Moves(old(State(k)), Step.Arbitrate(clock), State(k))
  {
    hide WorldOk, WellLinked, Mirrors, Activated, DomainsValid, Separate;
    ghost var w := State(k);
    WokenOk(w, clock);
    Wake(k, clock, true);
  }

  // A flag constructed set has its set state pending, and its clock is on the queue for it.
  method InitFlag(k: Kernel, clock: Clock, cell: Cell)
    requires Valid(k) && clock in k.clocks && cell in clock.domain.cells && cell.content == TwoPhase.Flag(false, false, false)
    modifies k`activeClocks, k`list, k.clocks`next, k.clocks`cycle, k.clocks`activated
    modifies clock.domain, cell
    ensures Valid(k)
    ensures State(k) == old(World(Activated(k.State(), clock),
                                  Contents(k.clocks)[clock := clock.domain.updates.content[cell := TwoPhase.Flag(false, true, false)]]))
  {
    hide WorldOk, WellLinked, Mirrors, Activated, DomainsValid, Separate, RunList.Domain.Valid;
    ghost var w := State(k);
    DomainOf(k.clocks, clock);
    CellFacts(clock.domain, cell);
    SetMoves(w, clock, cell);
    RecordSet(k.clocks, clock, cell);
    Wake(k, clock, true);
  }

  // The update of the storages of one domain; no other domain is concerned.
  method UpdateDomain(ghost clocks: set<Clock>, clock: Clock)
    requires Separate(clocks) && DomainsValid(clocks) && clock in clocks
    modifies clock.domain, clock.domain.processes, clock.domain.cells`content, clock.domain.cells`activated
    ensures DomainsValid(clocks)
    ensures clock in old(Contents(clocks))
    ensures Contents(clocks) == old(Contents(clocks)[clock := UpdatedIf(Contents(clocks)[clock], true)])
  {
    hide RunList.Domain.Valid, RunList.UpdatedAll, RunList.AllPending, TwoPhase.Occupied, Separate, Domains, Processes, Cells;
    forall c | c in clocks && c != clock
      ensures Apart(c.domain, clock.domain)
    {
      ApartFrom(clocks, c, clock);
    }
    ghost var before := Contents(clocks);
    ghost var content := UpdatedIf(before[clock], true);
    var _ := clock.domain.UpdateStorages();
    forall c | c in clocks
      ensures c.domain.updates.content == before[clock := content][c]
    {
      assert c != clock ==> c.domain.updates == old(c.domain.updates);
    }
  }

  // The contents when the clocks in done have been through their updates.
  ghost function UpdatedOf(contents: map<Clock, map<Cell, Content>>, done: set<Clock>): map<Clock, map<Cell, Content>> {
    map c | c in contents :: UpdatedIf(contents[c], c in done)
  }

  lemma UpdatedOneMore(contents: map<Clock, map<Cell, Content>>, done: set<Clock>, c: Clock)
    requires c in UpdatedOf(contents, done) && c !in done
    ensures var now := UpdatedOf(contents, done);
      now[c := UpdatedIf(now[c], true)] == UpdatedOf(contents, done + {c})
  {
    hide RunList.UpdatedAll, RunList.AllPending;
  }

  lemma NoneUpdated(contents: map<Clock, map<Cell, Content>>)
    ensures UpdatedOf(contents, {}) == contents
  {
  }

  // The walk along the queue has passed the first i clocks, all of them due now.
  ghost predicate Walked(l: List, now: nat, i: nat, done: set<Clock>, clock: Clock?) {
    && i <= |l.order| && Opt(clock) == Chains.At(l.order, i)
    && (forall j :: 0 <= j < i ==> l.order[j] in done)
    && (forall c :: c in done ==> c in l.order[..i] && c in l.due && l.due[c] == now)
  }

  lemma WalkBegins(k: Kernel)
    requires k.Valid()
    ensures Walked(k.list, k.cycle, 0, {}, k.activeClocks)
  {
  }

  lemma WalkStep(k: Kernel, i: nat, done: set<Clock>, clock: Clock)
    requires k.Valid() && Walked(k.list, k.cycle, i, done, clock) && clock.cycle == k.cycle
    ensures i < |k.list.order| && clock in k.clocks && clock.activated && clock !in done
    ensures Walked(k.list, k.cycle, i + 1, done + {clock}, clock.next)
  {
    hide Sorted;
    Member(k.list, k.activeClocks, i);
    var q := k.list.order;
    assert q[..i + 1] == q[..i] + [q[i]];
    assert clock !in q[..i];
  }

  lemma WalkEnds(k: Kernel, i: nat, done: set<Clock>, clock: Clock?)
    requires k.Valid() && OnTicks(k.State()) && Walked(k.list, k.cycle, i, done, clock)
    requires clock != null ==> clock.cycle != k.cycle
    ensures done == Running(k.State())
  {
    var q := k.list.order;
    forall c | c in Running(k.State())
      ensures c in done
    {
      var j :| 0 <= j < |q| && q[j] == c;
      NotLater(k, i, done, clock, j);
      assert q[..i][j] == c;
    }
  }

  lemma NotLater(k: Kernel, i: nat, done: set<Clock>, clock: Clock?, j: nat)
    requires k.Valid() && OnTicks(k.State()) && Walked(k.list, k.cycle, i, done, clock)
    requires clock != null ==> clock.cycle != k.cycle
    requires j < |k.list.order| && k.list.order[j] in Running(k.State())
    ensures j < i
  {
  }

  // Kernel::UpdateStorages: walks the clocks that run now, at the front of the queue. A process that
  // wakes in an update finds its clock activated.
  method UpdateStorages(k: Kernel)
    requires k.Valid() && OnTicks(k.State()) && Separate(k.clocks) && DomainsValid(k.clocks)
    modifies Domains(k.clocks), Processes(k.clocks), Cells(k.clocks)
    ensures k.Valid() && DomainsValid(k.clocks)
    ensures Contents(k.clocks) == UpdatedOf(old(Contents(k.clocks)), Running(k.State()))
  {
    hide WellLinked, Mirrors, DomainsValid, Separate, UpdatedIf, UpdatedOf, Running, Walked, OnTicks, Contents;
    ghost var contents := Contents(k.clocks);
    ghost var i, done: set<Clock> := 0, {};
    var clock := k.activeClocks;
    WalkBegins(k);
    NoneUpdated(contents);
    while clock != null && clock.cycle == k.cycle
      invariant k.Valid() && DomainsValid(k.clocks)
      invariant Walked(k.list, k.cycle, i, done, clock)
      invariant Contents(k.clocks) == UpdatedOf(contents, done)
      decreases |k.list.order| - i
    {
      WalkStep(k, i, done, clock);
      UpdateDomain(k.clocks, clock);
      UpdatedOneMore(contents, done, clock);
      done := done + {clock};
      i := i + 1;
      clock := clock.next;
    }
    WalkEnds(k, i, done, clock);
  }

  // A clock is busy exactly if its storages say so.
  lemma BusyAre(clocks: set<Clock>)
    requires DomainsValid(clocks)
    ensures (set c | c in clocks && c.Busy()) == BusyClocks(Contents(clocks))
  {
    hide RunList.Domain.Valid, BusyIn;
    forall c | c in clocks
      ensures c.Busy() <==> BusyIn(c.domain.updates.content)
    {
      BusyIsBusyIn(c.domain);
    }
  }

  // Reschedules the clocks; the domains are not concerned.
  method FinishCycle(k: Kernel)
    requires k.Valid() && OnTicks(k.State()) && DomainsValid(k.clocks)
    modifies k`cycle, k`activeClocks, k`list, k.clocks`next, k.clocks`cycle, k.clocks`activated
    ensures k.Valid() && DomainsValid(k.clocks) && Contents(k.clocks) == old(Contents(k.clocks))
    ensures Finished(old(k.State()), BusyClocks(Contents(k.clocks)), k.State())
  {
    hide WellLinked, Mirrors, OnTicks, Finished, RunList.Domain.Valid, BusyClocks;
    k.FinishCycle();
    BusyAre(k.clocks);
  }

  lemma EndMoves(w: World, w': World)
    requires WorldOk(w) && w'.contents == UpdatedOf(w.contents, Running(w.schedule))
    requires Finished(w.schedule, BusyClocks(w'.contents), w'.schedule)
    ensures Moves(w, Step.EndCycle, w') && WorldOk(w')
  {
    hide Finished, OnTicks, Running, UpdatedIf, BusyClocks, WorldOk;
    assert UpdatedOf(w.contents, Running(w.schedule)) == UpdatedDue(w);
    EndedOk(w, w');
  }

  lemma TicksOf(w: World)
    requires WorldOk(w)
    ensures OnTicks(w.schedule)
  {
  }

  // The end of a cycle: all storages of the clocks that ran are updated, then the clocks are
  // rescheduled and time moves on.
  method EndCycle(k: Kernel)
    requires Valid(k)
    modifies k`cycle, k`activeClocks, k`list, k.clocks`next, k.clocks`cycle, k.clocks`activated
    modifies Domains(k.clocks), Processes(k.clocks), Cells(k.clocks)
    ensures Valid(k) && Moves(old(State(k)), Step.EndCycle, State(k))
  {
    hide WorldOk, WellLinked, Mirrors, OnTicks, Finished, Running, Separate, DomainsValid, UpdatedOf, BusyClocks, Contents, Moves;
    ghost var w := State(k);
    TicksOf(w);
    UpdateStorages(k);
    FinishCycle(k);
    EndMoves(w, State(k));
  }

  method AdvanceTime(k: Kernel)
    requires k.Valid() && OnTicks(k.State()) && DomainsValid(k.clocks)
    modifies k`cycle
    ensures k.Valid() && DomainsValid(k.clocks) && Contents(k.clocks) == old(Contents(k.clocks))
    ensures k.State().due == old(k.State()).due
    ensures if k.State().due.Keys == {} then k.State() == old(k.State()) else IsEarliest(k.State().due, k.cycle)
  {
    hide WellLinked, Mirrors, OnTicks, RunList.Domain.Valid, IsEarliest;
    k.HeadFields();
    k.AdvanceTime();
  }

  lemma BeginMoves(w: World, w': World)
    requires WorldOk(w) && w'.schedule.due == w.schedule.due
    requires w'.contents == w.contents || (w.schedule.now == 0 && w'.contents == UpdatedOf(w.contents, Running(w.schedule)))
    requires if w.schedule.due.Keys == {} then w'.schedule == w.schedule else IsEarliest(w.schedule.due, w'.schedule.now)
    ensures Moves(w, Step.Begin, w') && WorldOk(w')
  {
    hide UpdatedOf, BusyIn, RunList.AllLegal, OnTicks, IsEarliest;
    NoneUpdated(w.contents);
    BegunOk(w, w');
  }

  // The start of a call of Step: time moves to the first clock. The updates that are to take place
  // before the first cycle, so as to wake the initial processes, find no clock due at cycle 0 and
  // do nothing; they take place with the first tick of each clock.
  method Begin(k: Kernel)
    requires Valid(k)
    modifies k`cycle, Domains(k.clocks), Processes(k.clocks), Cells(k.clocks)
    ensures Valid(k) && Moves(old(State(k)), Step.Begin, State(k))
    ensures Contents(k.clocks) == old(Contents(k.clocks))
  {
    hide WorldOk, WellLinked, Mirrors, OnTicks, Separate, DomainsValid, UpdatedOf, Contents, Moves, Running, IsEarliest;
    ghost var w := State(k);
    TicksOf(w);
    if k.cycle == 0 {
      UpdateStorages(k);
    }
    AdvanceTime(k);
    BeginMoves(w, State(k));
    SameContents(w, State(k));
  }

  lemma SameContents(w: World, w': World)
    requires WorldOk(w) && Moves(w, Step.Begin, w')
    ensures w'.contents == w.contents
  {
  }

  // Any run of operations, beginnings and ends of cycles moves the world step by step.
  method Run(k: Kernel, steps: seq<Step>) returns (ghost worlds: seq<World>)
    requires Valid(k)
    requires forall i :: 0 <= i < |steps| && steps[i].Ask? ==> steps[i].clock in k.clocks && steps[i].cell in steps[i].clock.domain.cells
    requires forall i :: 0 <= i < |steps| && steps[i].Arbitrate? ==> steps[i].clock in k.clocks
    modifies k, k.clocks`next, k.clocks`cycle, k.clocks`activated
    modifies Domains(k.clocks), Processes(k.clocks), Cells(k.clocks)
    ensures Valid(k) && IsRun(worlds, steps) && worlds[0] == old(State(k)) && worlds[|steps|] == State(k)
  {
    hide Valid, WorldOk, Moves;
    worlds := [State(k)];
    WorldIsOk(k);
    for i := 0 to |steps|
      invariant Valid(k) && |worlds| == i + 1 && worlds[0] == old(State(k)) && worlds[i] == State(k)
      invariant IsRun(worlds, steps[..i])
    {
      match steps[i] {
        case Ask(c, s, r) =>
          if TwoPhase.Allowed(s.content, r) {
            var _ := Ask(k, c, s, r);
          } else {
            NotAllowed(k, c, s, r);
          }
        case Arbitrate(c) =>
          RequestArbitration(k, c);
        case Begin =>
          Begin(k);
        case EndCycle =>
          EndCycle(k);
      }
      WorldIsOk(k);
      assert steps[..i + 1] == steps[..i] + [steps[i]];
      worlds := worlds + [State(k)];
    }
    assert steps[..|steps|] == steps;
  }

  lemma WorldIsOk(k: Kernel)
    requires Valid(k)
    ensures WorldOk(State(k))
  {
  }

  lemma NotAllowed(k: Kernel, c: Clock, s: Cell, r: Request)
    requires Valid(k) && c in k.clocks && s in c.domain.cells && !TwoPhase.Allowed(s.content, r)
    ensures Moves(State(k), Step.Ask(c, s, r), State(k))
  {
    hide RunList.Domain.Valid, TwoPhase.Allowed, WorldOk;
    CellFacts(c.domain, s);
  }
}
