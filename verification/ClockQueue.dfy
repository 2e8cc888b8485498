// sim/kernel.cpp, sim/clock.hpp: the queue of clocks that have something to run, an intrusive
// list sorted by the cycle each clock is due.
module ClockQueue {
  import opened Arith
  import opened Chains
  import opened Options
  import RunList

  // ----- what the queue means: which clocks are scheduled, and for when

  // A clock, and its domain: the processes and storages that it drives.
  class Clock {
    const period: nat
    const domain: RunList.Domain
    var next: Clock?
    var cycle: nat
    var activated: bool

    constructor (period: nat, domain: RunList.Domain)
      ensures this.period == period && this.domain == domain && !activated
    {
      this.period, this.domain := period, domain;
      next, cycle, activated := null, 0, false;
    }

    // A clock is busy while it has active processes or storages to update.
    predicate Busy()
      reads domain`activeProcesses, domain`activeStorages
    {
      domain.activeProcesses != null || domain.activeStorages != null
    }
  }

  datatype Schedule = Schedule(now: nat, due: map<Clock, nat>)

  // The first tick of a clock after a cycle.
  function NextTick(now: nat, period: nat): nat
    requires period > 0
  {
    now / period * period + period
  }

  ghost function Activated(s: Schedule, c: Clock): Schedule
    requires c.period > 0
  {
    if c in s.due then s else s.(due := s.due[c := NextTick(s.now, c.period)])
  }

  // The clocks that run now.
  ghost function Running(s: Schedule): set<Clock> {
    set c | c in s.due && s.due[c] == s.now
  }

  // After a cycle each clock that ran is dropped, or put back one period later if it is still busy.
  ghost predicate Finished(s: Schedule, busy: set<Clock>, s': Schedule) {
    && s'.due.Keys == s.due.Keys - (Running(s) - busy)
    && (forall c :: c in s'.due ==> s'.due[c] == if c in Running(s) then s.now + c.period else s.due[c])
    && (if s'.due.Keys == {} then s'.now == s.now else IsEarliest(s'.due, s'.now))
  }

  ghost predicate IsEarliest(due: map<Clock, nat>, t: nat) {
    (exists c :: c in due && due[c] == t) && forall c :: c in due ==> t <= due[c]
  }

  // Every scheduled clock waits for one of its own ticks, and none for the past.
  ghost predicate OnTicks(s: Schedule) {
    forall c :: c in s.due ==> c.period > 0 && s.due[c] % c.period == 0 && s.now <= s.due[c]
  }

  lemma NextTickIsLeast(now: nat, period: nat)
    requires period > 0
    ensures var t := NextTick(now, period);
      t % period == 0 && now < t <= now + period && forall u :: now < u && u % period == 0 ==> t <= u
  {
    var q := now / period;
    MulMod(q + 1, period);
    assert now == q * period + now % period;
    assert (q + 1) * period == q * period + period;
    forall u | now < u && u % period == 0
      ensures q * period + period <= u
    {
      var k := u / period;
      assert u == k * period;
      if k <= q {
        MulLe(k, q, period);
      } else {
        MulLe(q + 1, k, period);
      }
    }
  }

  lemma NextTickIs(now: nat, period: nat)
    requires period > 0
    ensures NextTick(now, period) == now - now % period + period
  {
    DivMod(now, period);
  }

  // What a cycle does to the queue, clock by clock.
  lemma FinishedMeans(s: Schedule, busy: set<Clock>, s': Schedule, c: Clock)
    requires Finished(s, busy, s')
    ensures c in s'.due <==> c in s.due && (s.due[c] == s.now ==> c in busy)
    ensures c in s'.due ==> s'.due[c] == if s.due[c] == s.now then s.now + c.period else s.due[c]
  {
    assert c in s'.due <==> c in s'.due.Keys;
  }

  lemma FinishedNow(s: Schedule, busy: set<Clock>, s': Schedule)
    requires Finished(s, busy, s')
    ensures if s'.due.Keys == {} then s'.now == s.now
            else (exists d :: d in s'.due && s'.due[d] == s'.now) && forall d :: d in s'.due ==> s'.now <= s'.due[d]
  {
  }

  lemma TickAfter(t: nat, period: nat)
    requires period > 0 && t % period == 0
    ensures NextTick(t, period) == t + period && (t + period) % period == 0
  {
    NextTickIsLeast(t, period);
    assert t == t / period * period;
  }

  lemma ActivatedOnTicks(s: Schedule, c: Clock)
    requires c.period > 0 && OnTicks(s)
    ensures OnTicks(Activated(s, c)) && Running(Activated(s, c)) == Running(s)
  {
    NextTickIsLeast(s.now, c.period);
  }

  lemma EarliestOnTicks(s: Schedule, head: Clock?)
    requires OnTicks(s) && (head != null ==> head in s.due && IsEarliest(s.due, s.due[head]))
    ensures head != null ==> s.now <= s.due[head] && OnTicks(s.(now := s.due[head]))
  {
  }

  lemma FinishedOnTicks(s: Schedule, busy: set<Clock>, s': Schedule)
    requires OnTicks(s) && Finished(s, busy, s')
    ensures OnTicks(s') && (s'.due.Keys != {} ==> s.now < s'.now)
  {
    forall c | c in s'.due
      ensures c.period > 0 && s'.due[c] % c.period == 0 && s'.now <= s'.due[c] && s.now < s'.due[c]
    {
      if c in Running(s) {
        TickAfter(s.now, c.period);
      }
    }
  }

  // ----- runs: each cycle activates some clocks and leaves some busy

  datatype CycleStep = CycleStep(activations: seq<Clock>, busy: set<Clock>)

  ghost function ActivatedAll(s: Schedule, cs: seq<Clock>): Schedule
    requires forall k :: 0 <= k < |cs| ==> cs[k].period > 0
  {
    if cs == [] then s else Activated(ActivatedAll(s, cs[..|cs| - 1]), cs[|cs| - 1])
  }

  ghost predicate IsRun(states: seq<Schedule>, steps: seq<CycleStep>) {
    && |states| == |steps| + 1
    && OnTicks(states[0])
    && (forall i, k :: 0 <= i < |steps| && 0 <= k < |steps[i].activations| ==> steps[i].activations[k].period > 0)
    && (forall i :: 0 <= i < |steps| ==> Finished(ActivatedAll(states[i], steps[i].activations), steps[i].busy, states[i + 1]))
  }

  lemma {:induction false} ActivatedAllKeeps(s: Schedule, cs: seq<Clock>)
    requires OnTicks(s) && forall k :: 0 <= k < |cs| ==> cs[k].period > 0
    ensures var s' := ActivatedAll(s, cs);
      && OnTicks(s') && s'.now == s.now && Running(s') == Running(s)
      && forall c :: c in s.due ==> c in s'.due && s'.due[c] == s.due[c]
    decreases |cs|
  {
    if cs != [] {
      ActivatedAllKeeps(s, cs[..|cs| - 1]);
      ActivatedOnTicks(ActivatedAll(s, cs[..|cs| - 1]), cs[|cs| - 1]);
    }
  }

  lemma {:induction false} RunOnTicks(states: seq<Schedule>, steps: seq<CycleStep>, i: nat)
    requires IsRun(states, steps) && i < |states|
    ensures OnTicks(states[i])
  {
    if i > 0 {
      RunOnTicks(states, steps, i - 1);
      ActivatedAllKeeps(states[i - 1], steps[i - 1].activations);
      FinishedOnTicks(ActivatedAll(states[i - 1], steps[i - 1].activations), steps[i - 1].busy, states[i]);
    }
  }

  // Time moves strictly forward for as long as anything is scheduled, so no clock runs twice in a
  // cycle; and a clock only ever runs on its own ticks.
  lemma RunsOnOwnTicks(states: seq<Schedule>, steps: seq<CycleStep>, i: nat)
    requires IsRun(states, steps) && i < |steps|
    ensures states[i + 1].due.Keys != {} ==> states[i].now < states[i + 1].now
    ensures forall c :: c in Running(states[i]) ==> c.period > 0 && states[i].now % c.period == 0
  {
    RunOnTicks(states, steps, i);
    ActivatedAllKeeps(states[i], steps[i].activations);
    FinishedOnTicks(ActivatedAll(states[i], steps[i].activations), steps[i].busy, states[i + 1]);
  }

  // A clock that ran in cycle i and stayed busy is next due exactly one period later: until that
  // cycle is reached it stays scheduled for it, and no run steps over it.
  lemma {:induction false} BusyClockRunsEveryTick(states: seq<Schedule>, steps: seq<CycleStep>, c: Clock, i: nat, j: nat)
    requires IsRun(states, steps) && i < j < |states|
    requires c in Running(states[i]) && c in steps[i].busy
    requires forall k :: i < k < j ==> states[k].now != states[i].now + c.period
    ensures c in states[j].due && states[j].due[c] == states[i].now + c.period && states[j].now <= states[i].now + c.period
    ensures states[j].now == states[i].now + c.period <==> c in Running(states[j])
  {
    RunOnTicks(states, steps, j - 1);
    ActivatedAllKeeps(states[j - 1], steps[j - 1].activations);
    if j > i + 1 {
      BusyClockRunsEveryTick(states, steps, c, i, j - 1);
    }
    RunOnTicks(states, steps, j);
  }

  // ----- the list itself: its clocks in order, and what it refines

  // The clocks of a schedule, each once, earliest first.
  ghost predicate Ordered(q: seq<Clock>, due: map<Clock, nat>) {
    Distinct(q) && Scheduled(q, due) && Sorted(q, due) && forall c :: c in due ==> c in q
  }

  ghost predicate Scheduled(q: seq<Clock>, due: map<Clock, nat>) {
    forall i :: 0 <= i < |q| ==> q[i] in due
  }

  ghost predicate Sorted(q: seq<Clock>, due: map<Clock, nat>)
    requires Scheduled(q, due)
  {
    forall i, j :: 0 <= i < j < |q| ==> due[q[i]] <= due[q[j]]
  }

  // Where a clock due at t belongs: after all clocks due earlier, before all others.
  ghost predicate Place(q: seq<Clock>, due: map<Clock, nat>, t: nat, k: nat)
    requires Scheduled(q, due)
  {
    && k <= |q|
    && (forall i :: 0 <= i < k ==> due[q[i]] < t)
    && (forall i :: k <= i < |q| ==> t <= due[q[i]])
  }

  lemma InsertSorted(q: seq<Clock>, due: map<Clock, nat>, k: nat, c: Clock, t: nat)
    requires Scheduled(q, due) && Sorted(q, due) && c !in due && k <= |q| && Place(q, due, t, k)
    ensures Scheduled(Insert(q, k, c), due[c := t]) && Sorted(Insert(q, k, c), due[c := t])
  {
  }

  lemma InsertOrdered(q: seq<Clock>, due: map<Clock, nat>, k: nat, c: Clock, t: nat)
    requires Ordered(q, due) && c !in due && k <= |q| && Place(q, due, t, k)
    ensures c !in q && Ordered(Insert(q, k, c), due[c := t])
  {
    hide Sorted, Place, Insert, Distinct;
    InsertSorted(q, due, k, c, t);
    InsertDistinct(q, k, c);
    InsertMembers(q, k, c);
  }

  lemma PopOrdered(q: seq<Clock>, due: map<Clock, nat>)
    requires Ordered(q, due) && q != []
    ensures q[0] in due && Ordered(Remove(q, 0), due - {q[0]})
  {
    RemoveMembers(q, 0);
  }

  // What the list holds, as values: its order, when each clock is due, and every clock's next.
  datatype List = List(order: seq<Clock>, due: map<Clock, nat>, next: map<Clock, Option<Clock>>)

  ghost function Opt(c: Clock?): Option<Clock> {
    if c == null then None else var d: Clock := c; Some(d)
  }

  ghost predicate WellLinked(l: List, head: Clock?) {
    Ordered(l.order, l.due) && Linked(l.order, l.next, Opt(head))
  }

  // The list is the one that the clocks' own fields describe.
  ghost predicate Mirrors(clocks: set<Clock>, l: List)
    reads clocks`next, clocks`activated, clocks`cycle
  {
    MirrorsNext(clocks, l.next) && MirrorsDue(clocks, l.due)
  }

  ghost predicate MirrorsNext(clocks: set<Clock>, next: map<Clock, Option<Clock>>)
    reads clocks`next
  {
    next.Keys == clocks && forall c :: c in clocks ==> Opt(c.next) == next[c]
  }

  ghost predicate MirrorsDue(clocks: set<Clock>, due: map<Clock, nat>)
    reads clocks`activated, clocks`cycle
  {
    && (forall c :: c in clocks ==> c.period > 0 && (c.activated <==> c in due))
    && (forall c :: c in due ==> c in clocks && c.cycle == due[c])
  }

  ghost function Inserted(l: List, k: nat, c: Clock, t: nat): List
    requires k <= |l.order|
  {
    List(Insert(l.order, k, c), l.due[c := t], InsertNext(l.order, l.next, k, c))
  }

  lemma InsertWellLinked(l: List, head: Clock?, k: nat, c: Clock, t: nat)
    requires WellLinked(l, head) && c !in l.due && k <= |l.order| && Place(l.order, l.due, t, k)
    ensures WellLinked(Inserted(l, k, c, t), if k == 0 then c else head)
  {
    hide Linked, Place, Insert, InsertNext, Scheduled;
    InsertOrdered(l.order, l.due, k, c, t);
    InsertLinked(l.order, l.next, Opt(head), k, c);
  }

  ghost function Popped(l: List): List
    requires l.order != []
  {
    List(Remove(l.order, 0), l.due - {l.order[0]}, l.next)
  }

  lemma PopWellLinked(l: List, head: Clock, next: Clock?)
    requires WellLinked(l, head) && head in l.next && Opt(next) == l.next[head]
    ensures l.order != [] && head == l.order[0] && head in l.due && WellLinked(Popped(l), next)
  {
    PopOrdered(l.order, l.due);
    RemoveLinked(l.order, l.next, Some(head), 0);
  }

  lemma HeadIsEarliest(l: List, head: Clock?)
    requires WellLinked(l, head)
    ensures if head == null then l.due.Keys == {} else head in l.due && IsEarliest(l.due, l.due[head])
  {
    if head == null {
      assert l.order == [];
    }
  }

  class Kernel {
    var cycle: nat
    var activeClocks: Clock?
    ghost var list: List
    ghost const clocks: set<Clock>

    ghost predicate Valid()
      reads this, clocks`next, clocks`activated, clocks`cycle
    {
      WellLinked(list, activeClocks) && Mirrors(clocks, list)
    }

    ghost function State(): Schedule
      reads this
    {
      Schedule(cycle, list.due)
    }

    constructor (ghost clocks: set<Clock>)
      requires forall c :: c in clocks ==> c.period > 0 && !c.activated
      ensures Valid() && this.clocks == clocks && State() == Schedule(0, map[])
    {
      this.clocks := clocks;
      cycle, activeClocks := 0, null;
      list := List([], map[], map c | c in clocks :: Opt(c.next));
    }

    // Walks the list to the first clock that is not due before t.
    method FindPlace(t: nat) returns (before: Clock?, after: Clock?, ghost k: nat)
      requires Valid()
      ensures k <= |list.order| && Place(list.order, list.due, t, k)
      ensures Opt(before) == At(list.order, k - 1) && Opt(after) == At(list.order, k)
      ensures before in clocks + {null}
    {
      hide Ordered, WellLinked, Place;
      ghost var q := list.order;
      Member(list, activeClocks, 0);
      before, after := null, activeClocks;
      k := 0;
      while after != null && after.cycle < t
        invariant k <= |q|
        invariant Opt(before) == At(q, k - 1) && Opt(after) == At(q, k)
        invariant k > 0 ==> q[k - 1] in list.due && list.due[q[k - 1]] < t
        decreases |q| - k
      {
        Member(list, activeClocks, k);
        before, after := after, after.next;
        k := k + 1;
      }
      Member(list, activeClocks, k);
      PlaceFound(list, activeClocks, t, k);
    }

    // Hooks a clock into the chain between two neighbours.
    method LinkBetween(clock: Clock, before: Clock?, after: Clock?, ghost k: nat)
      requires MirrorsNext(clocks, list.next) && clock in clocks && k <= |list.order|
      requires Opt(before) == At(list.order, k - 1) && Opt(after) == At(list.order, k)
      requires before in clocks + {null} && before != clock
      modifies this`activeClocks, clocks`next
      ensures activeClocks == (if k == 0 then clock else old(activeClocks))
      ensures MirrorsNext(clocks, InsertNext(list.order, list.next, k, clock))
    {
      if before == null {
        activeClocks := clock;
      } else {
        before.next := clock;
      }
      clock.next := after;
    }

    method SetCycle(clock: Clock, t: nat)
      requires MirrorsDue(clocks, list.due) && clock in clocks && clock !in list.due
      modifies clock`cycle
      ensures clock.cycle == t && MirrorsDue(clocks, list.due)
    {
      clock.cycle := t;
    }

    method SetActivated(clock: Clock)
      requires MirrorsDue(clocks, list.due) && clock in clocks && clock !in list.due
      modifies clock`activated
      ensures MirrorsDue(clocks, list.due[clock := clock.cycle])
    {
      clock.activated := true;
    }

    // Puts a clock that is not on the list into its place.
    method Enlist(clock: Clock)
      requires Valid() && clock in clocks && clock !in list.due
      modifies this`activeClocks, this`list, clocks`next, clocks`activated
      ensures Valid() && list.due == old(list.due)[clock := clock.cycle]
      ensures activeClocks == old(activeClocks) || activeClocks == clock
    {
      hide WellLinked, Place, Insert, InsertNext, MirrorsNext, MirrorsDue;
      var before, after;
      ghost var k;
      before, after, k := FindPlace(clock.cycle);
      if k > 0 {
        Member(list, activeClocks, k - 1);
      }
      InsertWellLinked(list, activeClocks, k, clock, clock.cycle);
      LinkBetween(clock, before, after, k);
      SetActivated(clock);
      list := Inserted(list, k, clock, clock.cycle);
    }

    // Schedules a clock for its first tick after the current cycle, unless it is scheduled already.
    method ActivateClock(clock: Clock)
      requires Valid() && clock in clocks
      modifies this`activeClocks, this`list, clocks`next, clocks`cycle, clocks`activated
      ensures Valid() && State() == old(Activated(State(), clock))
      ensures clock.period > 0 && list.due ==
        if clock in old(list.due) then old(list.due) else old(list.due)[clock := cycle - cycle % clock.period + clock.period]
      ensures activeClocks == old(activeClocks) || activeClocks == clock
    {
      hide NextTick, WellLinked, MirrorsNext, MirrorsDue;
      ClockFields(clocks, list.due, clock);
      NextTickIs(cycle, clock.period);
      if !clock.activated {
        SetCycle(clock, NextTick(cycle, clock.period));
        Enlist(clock);
      }
    }

    // Moves time to the first clock on the list, before a cycle.
    method AdvanceTime()
      requires Valid() && OnTicks(State())
      modifies this`cycle
      ensures Valid() && OnTicks(State()) && list == old(list)
      ensures if activeClocks == null then cycle == old(cycle) else IsEarliest(list.due, cycle) && old(cycle) <= cycle
    {
      hide WellLinked, OnTicks, MirrorsNext, MirrorsDue, IsEarliest;
      HeadFields();
      EarliestOnTicks(State(), activeClocks);
      if activeClocks != null {
        cycle := activeClocks.cycle;
      }
    }

    // Takes the head off the list.
    method PopClock() returns (clock: Clock)
      requires Valid() && activeClocks != null
      modifies this`activeClocks, this`list, clocks`activated
      ensures Valid() && clock == old(activeClocks) && clock in clocks && activeClocks == clock.next
      ensures list.due == old(list.due) - {clock} && list.next == old(list.next)
    {
      hide WellLinked;
      clock := activeClocks;
      HeadIsEarliest(list, clock);
      PopWellLinked(list, clock, clock.next);
      list := Popped(list);
      activeClocks := clock.next;
      clock.activated := false;
    }

    // Takes a clock that ran off the head of the list and puts it back if it is busy.
    method Retire(clock: Clock, ghost s: Schedule, ghost busy: set<Clock>, ghost done: set<Clock>) returns (next: Clock?)
      requires Valid() && OnTicks(s) && clock == activeClocks && cycle == s.now == clock.cycle
      requires list.due == Rescheduled(s, busy, done) && (clock.Busy() <==> clock in busy)
      modifies this`activeClocks, this`list, clocks`next, clocks`cycle, clocks`activated
      ensures Valid() && clock in Running(s) && clock !in done
      ensures list.due == Rescheduled(s, busy, done + {clock})
      ensures Reached(list.due, next, activeClocks, cycle)
    {
      hide NextTick, WellLinked, OnTicks, Rescheduled, IsEarliest, Running, MirrorsNext, MirrorsDue;
      HeadFields();
      ClockFields(clocks, list.due, clock);
      RescheduleStep(s, busy, done, clock);
      next := clock.next;
      var popped := PopClock();
      ghost var l, head := list, activeClocks;
      if clock.Busy() {
        ActivateClock(clock);
        NextTickIsLeast(cycle, clock.period);
        StillReached(l, head, list, activeClocks, clock, cycle);
      }
    }

    // Retires every clock that ran.
    method RetireAll(ghost s: Schedule, ghost busy: set<Clock>) returns (ghost done: set<Clock>)
      requires Valid() && OnTicks(s) && State() == s && busy == set c | c in clocks && c.Busy()
      modifies this`activeClocks, this`list, clocks`next, clocks`cycle, clocks`activated
      ensures Valid() && done <= Running(s) && list.due == Rescheduled(s, busy, done)
      ensures activeClocks != null ==> activeClocks.cycle != cycle
    {
      hide NextTick, WellLinked, OnTicks, Rescheduled, Mirrors, IsEarliest;
      done := {};
      NothingRescheduled(s, busy);
      var clock := activeClocks;
      while clock != null && cycle == clock.cycle
        invariant Valid() && done <= Running(s)
        invariant list.due == Rescheduled(s, busy, done)
        invariant Reached(list.due, clock, activeClocks, cycle)
        decreases Running(s) - done
      {
        HeadFields();
        ghost var c := clock;
        clock := Retire(clock, s, busy, done);
        done := done + {c};
      }
      HeadFields();
    }

    // Ends a cycle: every clock that ran is taken off the list and put back if it is busy, then
    // time moves to the first clock on the list.
    method FinishCycle()
      requires Valid() && OnTicks(State())
      modifies this`cycle, this`activeClocks, this`list, clocks`next, clocks`cycle, clocks`activated
      ensures Valid() && Finished(old(State()), (set c | c in clocks && c.Busy()), State()) && OnTicks(State())
      ensures forall c :: c in list.due <==> c in old(list.due) && (old(list.due)[c] == old(cycle) ==> c.Busy())
      ensures forall c :: c in list.due ==>
        list.due[c] == if old(list.due)[c] == old(cycle) then old(cycle) + c.period else old(list.due)[c]
      ensures if list.due.Keys == {} then cycle == old(cycle) else old(cycle) < cycle
      ensures (forall c :: c in list.due ==> cycle <= list.due[c]) && (list.due.Keys != {} ==> exists c :: c in list.due && list.due[c] == cycle)
    {
      hide NextTick, WellLinked, OnTicks, Rescheduled, Finished, Mirrors, IsEarliest, Running;
      ghost var s, busy := State(), (set c | c in clocks && c.Busy());
      HeadFields();
      assert s.due.Keys <= clocks;
      ghost var done := RetireAll(s, busy);
      HeadFields();
      RescheduledDue(s, busy, done);
      if activeClocks != null {
        assert activeClocks.cycle > cycle;
        cycle := activeClocks.cycle;
      }
      AllRescheduled(s, busy, done, cycle);
      FinishedOnTicks(s, busy, State());
      assert (set c | c in clocks && c.Busy()) == busy;
      QueueKnown(s, busy);
    }

    // What the queue has become since s.
    lemma QueueKnown(s: Schedule, busy: set<Clock>)
      requires Finished(s, busy, State()) && busy == (set c | c in clocks && c.Busy()) && s.due.Keys <= clocks
      ensures forall c :: c in list.due <==> c in s.due && (s.due[c] == s.now ==> c.Busy())
      ensures forall c :: c in list.due ==> list.due[c] == if s.due[c] == s.now then s.now + c.period else s.due[c]
      ensures if list.due.Keys == {} then cycle == s.now
              else (exists c :: c in list.due && list.due[c] == cycle) && forall c :: c in list.due ==> cycle <= list.due[c]
    {
      hide Finished;
      FinishedNow(s, busy, State());
      forall c: Clock
        ensures c in list.due <==> c in s.due && (s.due[c] == s.now ==> c.Busy())
        ensures c in list.due ==> list.due[c] == if s.due[c] == s.now then s.now + c.period else s.due[c]
      {
        FinishedMeans(s, busy, State(), c);
      }
    }

    lemma HeadFields()
      requires Valid()
      ensures if activeClocks == null then list.due.Keys == {}
        else activeClocks in clocks && activeClocks in list.due && IsEarliest(list.due, activeClocks.cycle)
      ensures forall c :: c in list.due ==> c in clocks && c.cycle == list.due[c]
    {
      HeadIsEarliest(list, activeClocks);
    }
  }

  lemma ClockFields(clocks: set<Clock>, due: map<Clock, nat>, c: Clock)
    requires MirrorsDue(clocks, due) && c in clocks
    ensures c.period > 0 && (c.activated <==> c in due) && (c in due ==> c.cycle == due[c])
  {
  }

  lemma Member(l: List, head: Clock?, k: nat)
    requires WellLinked(l, head)
    ensures Opt(head) == At(l.order, 0)
    ensures k < |l.order| ==> var c := l.order[k]; c in l.due && c in l.next && l.next[c] == At(l.order, k + 1)
  {
    LinkedAt(l.order, l.next, Opt(head), k);
  }

  lemma PlaceFound(l: List, head: Clock?, t: nat, k: nat)
    requires WellLinked(l, head) && k <= |l.order|
    requires k > 0 ==> l.order[k - 1] in l.due && l.due[l.order[k - 1]] < t
    requires k < |l.order| ==> l.order[k] in l.due && t <= l.due[l.order[k]]
    ensures Place(l.order, l.due, t, k)
  {
  }

  // The end-of-cycle loop stands at the head of the list, or has passed every clock that ran.
  ghost predicate Reached(due: map<Clock, nat>, clock: Clock?, head: Clock?, now: nat) {
    clock == head || ((clock != null ==> clock in due && now < due[clock]) && AllLater(due, now))
  }

  lemma StillReached(l: List, head: Clock?, l': List, head': Clock?, c: Clock, now: nat)
    requires WellLinked(l, head) && WellLinked(l', head') && (head' == head || head' == c)
    requires c !in l.due && c in l'.due && l'.due == l.due[c := l'.due[c]] && now < l'.due[c]
    ensures Reached(l'.due, head, head', now)
  {
    HeadIsEarliest(l, head);
    HeadIsEarliest(l', head');
  }

  ghost predicate AllLater(due: map<Clock, nat>, t: nat) {
    forall c :: c in due ==> t < due[c]
  }

  // The schedule part way through the end of a cycle, when the clocks in done have been handled.
  ghost function Rescheduled(s: Schedule, busy: set<Clock>, done: set<Clock>): map<Clock, nat> {
    map c | c in s.due && (c !in done || c in busy) :: if c in done then s.now + c.period else s.due[c]
  }

  lemma NothingRescheduled(s: Schedule, busy: set<Clock>)
    ensures Rescheduled(s, busy, {}) == s.due
  {
  }

  lemma RescheduledDue(s: Schedule, busy: set<Clock>, done: set<Clock>)
    requires OnTicks(s)
    ensures forall c :: c in Rescheduled(s, busy, done) ==> s.now <= Rescheduled(s, busy, done)[c]
  {
  }

  lemma RescheduleStep(s: Schedule, busy: set<Clock>, done: set<Clock>, c: Clock)
    requires OnTicks(s) && c in Rescheduled(s, busy, done) && Rescheduled(s, busy, done)[c] == s.now
    ensures c in Running(s) && c !in done && c.period > 0
    ensures Rescheduled(s, busy, done + {c})
      == if c in busy then (Rescheduled(s, busy, done) - {c})[c := NextTick(s.now, c.period)] else Rescheduled(s, busy, done) - {c}
  {
    TickAfter(s.now, c.period);
  }

  lemma AllRescheduled(s: Schedule, busy: set<Clock>, done: set<Clock>, t: nat)
    requires OnTicks(s) && done <= Running(s)
    requires var due := Rescheduled(s, busy, done);
      if due.Keys == {} then t == s.now else IsEarliest(due, t) && s.now < t
    ensures Finished(s, busy, Schedule(t, Rescheduled(s, busy, done)))
  {
    forall c | c in Running(s)
      ensures c in done
    {
      assert c in Rescheduled(s, busy, done) || c in done;
    }
  }
}
