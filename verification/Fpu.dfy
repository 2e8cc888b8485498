// arch/FPU.cpp: a cycle of the floating point unit. All units move on, then the sources issue what
// the units can accept.
module Fpu {
  import opened Arith
  import opened Options
  import opened FpuUnits

  // What a source asks for; its result is computed when it is issued.
  datatype Operation = Operation(kind: nat, address: nat, registers: nat, bits: nat)

  // A source's queue, and the last cycle and unit that tried to write back to it.
  datatype Source = Source(inputs: seq<Operation>, lastWrite: nat, lastUnit: nat)

  // ----- everything ever written back

  datatype Record = Record(cycle: nat, unit: nat, write: Write)

  ghost function ByUnit(h: seq<Record>, i: nat): seq<Write> {
    if h == [] then []
    else
      var last := h[|h| - 1];
      if last.unit == i then ByUnit(h[..|h| - 1], i) + [last.write] else ByUnit(h[..|h| - 1], i)
  }

  // In a cycle a source receives one write at most.
  ghost predicate OneWriteEach(h: seq<Record>) {
    forall j, k :: 0 <= j < k < |h| && h[j].write.source == h[k].write.source ==> h[j].cycle < h[k].cycle
  }

  // Each source remembers who wrote to it last.
  ghost predicate Remembered(h: seq<Record>, sources: seq<Source>, now: nat) {
    && (forall s :: 0 <= s < |sources| ==> sources[s].lastWrite <= now)
    && forall k :: 0 <= k < |h| ==>
         var s := h[k].write.source;
         s < |sources| && h[k].cycle <= sources[s].lastWrite && (h[k].cycle == sources[s].lastWrite ==> h[k].unit == sources[s].lastUnit)
  }

  // In the current cycle only the first n units have written.
  ghost predicate WrittenBelow(h: seq<Record>, now: nat, n: nat) {
    forall k :: 0 <= k < |h| ==> h[k].cycle <= now && (h[k].cycle == now ==> h[k].unit < n)
  }

  lemma Claimed(h: seq<Record>, sources: seq<Source>, now: nat, i: nat, s: nat)
    requires Remembered(h, sources, now) && WrittenBelow(h, now, i) && s < |sources|
    requires sources[s].lastWrite != now || sources[s].lastUnit == i
    ensures Remembered(h, sources[s := sources[s].(lastWrite := now, lastUnit := i)], now)
    ensures forall k :: 0 <= k < |h| && h[k].write.source == s ==> h[k].cycle < now
  {
  }

  lemma Written(h: seq<Record>, sources: seq<Source>, now: nat, i: nat, w: Write)
    requires OneWriteEach(h) && Remembered(h, sources, now) && WrittenBelow(h, now, i)
    requires w.source < |sources| && sources[w.source].lastWrite == now && sources[w.source].lastUnit == i
    requires forall k :: 0 <= k < |h| && h[k].write.source == w.source ==> h[k].cycle < now
    ensures var h' := h + [Record(now, i, w)];
      OneWriteEach(h') && Remembered(h', sources, now) && WrittenBelow(h', now, i + 1)
  {
  }

  // Unit i has written back in a cycle.
  ghost predicate Wrote(h: seq<Record>, now: nat, i: nat) {
    exists k :: 0 <= k < |h| && h[k].cycle == now && h[k].unit == i
  }

  // A unit with work moves on, unless it has a result to write back and cannot.
  ghost predicate MovesOn(u: Unit, h: seq<Record>, now: nat, i: nat) {
    u.slots != [] && (Finished(u) ==> Wrote(h, now, i))
  }

  // One of the first n units did.
  ghost predicate SomeMoved(units: seq<Unit>, h: seq<Record>, now: nat, n: nat)
    requires n <= |units|
  {
    exists i :: 0 <= i < n && MovesOn(units[i], h, now, i)
  }

  lemma WroteOnce(h: seq<Record>, now: nat, i: nat, w: Write, ok: bool, h': seq<Record>)
    requires WrittenBelow(h, now, i) && h' == if ok then h + [Record(now, i, w)] else h
    ensures Wrote(h', now, i) <==> ok
    ensures forall j: nat :: j < i ==> (Wrote(h', now, j) <==> Wrote(h, now, j))
  {
    if ok {
      assert h'[|h|] == Record(now, i, w);
      forall j: nat | j < i && Wrote(h, now, j)
        ensures Wrote(h', now, j)
      {
        var k :| 0 <= k < |h| && h[k].cycle == now && h[k].unit == j;
        assert h'[k] == h[k];
      }
    }
  }

  lemma OneMoreMoved(units: seq<Unit>, h: seq<Record>, h': seq<Record>, now: nat, i: nat)
    requires i < |units| && forall j: nat :: j < i ==> (Wrote(h', now, j) <==> Wrote(h, now, j))
    ensures SomeMoved(units, h', now, i + 1) <==> SomeMoved(units, h, now, i) || MovesOn(units[i], h', now, i)
  {
    hide Wrote;
    if j :| 0 <= j < i && MovesOn(units[j], h, now, j) {
      assert MovesOn(units[j], h', now, j);
    }
    if j :| 0 <= j < i && MovesOn(units[j], h', now, j) {
      assert MovesOn(units[j], h, now, j);
    }
  }

  // ----- who writes back in a cycle

  // One of the first n units has a result for source s.
  ghost predicate Offered(units: seq<Unit>, n: nat, s: nat)
    requires n <= |units|
  {
    exists j :: 0 <= j < n && Finished(units[j]) && units[j].slots[0].op.source == s
  }

  // A finished result is written back if the client takes it, unless an earlier unit has a result for
  // the same source.
  ghost predicate Writes(units: seq<Unit>, accepts: seq<bool>, i: nat)
    requires i < |units| == |accepts|
  {
    Finished(units[i]) && accepts[i] && !Offered(units, i, units[i].slots[0].op.source)
  }

  // Sources are claimed by the units that offer them something.
  ghost predicate ClaimedAre(units: seq<Unit>, n: nat, sources: seq<Source>, now: nat)
    requires n <= |units|
  {
    forall s :: 0 <= s < |sources| ==>
      (sources[s].lastWrite == now <==> Offered(units, n, s)) && (sources[s].lastWrite == now ==> sources[s].lastUnit < n)
  }

  lemma OneMoreClaimed(units: seq<Unit>, i: nat, sources: seq<Source>, sources': seq<Source>, now: nat)
    requires i < |units| && ClaimedAre(units, i, sources, now)
    requires Finished(units[i]) ==> units[i].slots[0].op.source < |sources|
    requires var claims := Finished(units[i]) && (sources[units[i].slots[0].op.source].lastWrite != now || sources[units[i].slots[0].op.source].lastUnit == i);
      sources' == if claims then var s := units[i].slots[0].op.source; sources[s := sources[s].(lastWrite := now, lastUnit := i)] else sources
    ensures ClaimedAre(units, i + 1, sources', now)
    ensures Finished(units[i]) ==>
      var s := units[i].slots[0].op.source;
      (sources[s].lastWrite != now || sources[s].lastUnit == i <==> !Offered(units, i, s))
  {
    forall s: nat
      ensures Offered(units, i + 1, s) <==> Offered(units, i, s) || (Finished(units[i]) && units[i].slots[0].op.source == s)
    {
      if j :| 0 <= j < i && Finished(units[j]) && units[j].slots[0].op.source == s {
        assert Offered(units, i + 1, s);
      }
    }
  }

  // ----- the unit

  ghost predicate UnitsOk(units: seq<Unit>, logs: seq<Log>, h: seq<Record>, sources: nat) {
    && |logs| == |units|
    && forall i :: 0 <= i < |units| ==>
         UnitOk(units[i]) && LogOk(units[i], logs[i]) && FromSources(units[i], sources) && logs[i].written == ByUnit(h, i)
  }

  ghost predicate FromSources(u: Unit, sources: nat) {
    forall j :: 0 <= j < |u.slots| ==> u.slots[j].op.source < sources
  }

  lemma AdvancedFromSources(u: Unit, ok: bool, sources: nat)
    requires FromSources(u, sources)
    ensures FromSources(Advanced(u, ok), sources)
  {
  }

  lemma ByUnitOneMore(h: seq<Record>, r: Record, n: nat)
    ensures ByUnit(h + [r], n) == if n == r.unit then ByUnit(h, n) + [r.write] else ByUnit(h, n)
  {
    assert (h + [r])[..|h|] == h;
  }

  ghost predicate InputsOk(sources: seq<Source>, mapping: map<nat, seq<nat>>, units: nat) {
    && sources != []
    && (forall k, m :: k in mapping && 0 <= m < |mapping[k]| ==> mapping[k][m] < units)
    && (forall s, m :: 0 <= s < |sources| && 0 <= m < |sources[s].inputs| ==> OperationOk(sources[s].inputs[m], mapping))
  }

  predicate OperationOk(op: Operation, mapping: map<nat, seq<nat>>) {
    op.registers > 0 && op.kind in mapping && mapping[op.kind] != []
  }

  // ----- who issues in a cycle

  // The source whose turn comes after p others, if the first is the one given.
  function Turn(sources: nat, first: nat, p: nat): (s: nat)
    requires sources > 0
    ensures s < sources
  {
    (first + p) % sources
  }

  lemma TurnsDiffer(sources: nat, first: nat, p: nat, q: nat)
    requires p < q < sources
    ensures Turn(sources, first, p) != Turn(sources, first, q)
  {
    var k, s := (first + p) / sources, Turn(sources, first, p);
    DivMod(first + p, sources);
    if s + (q - p) < sources {
      ModUnique(first + q, k, s + (q - p), sources);
    } else {
      ModUnique(first + q, k + 1, s + (q - p) - sources, sources);
    }
  }

  // Every source has its turn.
  lemma TurnOf(sources: nat, first: nat, s: nat) returns (p: nat)
    requires s < sources
    ensures p < sources && Turn(sources, first, p) == s
  {
    var f := first % sources;
    DivMod(first, sources);
    var q := first / sources;
    if f <= s {
      p := s - f;
      ModUnique(first + p, q, s, sources);
    } else {
      p := s + sources - f;
      ModUnique(first + p, q + 1, s, sources);
    }
  }

  // A fixed choice among the units for a kind of operation.
  function UnitIndex(mapping: map<nat, seq<nat>>, kind: nat, s: nat): nat
    requires kind in mapping && mapping[kind] != []
  {
    mapping[kind][s % |mapping[kind]|]
  }

  // The unit that the front operation of a source goes to.
  ghost function Target(sources: seq<Source>, mapping: map<nat, seq<nat>>, s: nat): Option<nat>
    requires s < |sources|
  {
    var inputs := sources[s].inputs;
    if inputs == [] || inputs[0].kind !in mapping || mapping[inputs[0].kind] == [] then None
    else Some(mapping[inputs[0].kind][s % |mapping[inputs[0].kind]|])
  }

  // The source at turn p issues its operation: its unit can take one, and no source before it has one
  // for the same unit.
  ghost predicate Issues(units: seq<Unit>, sources: seq<Source>, mapping: map<nat, seq<nat>>, first: nat, p: nat)
    requires p < |sources|
  {
    var target := Target(sources, mapping, Turn(|sources|, first, p));
    && target.Some? && target.value < |units| && CanAccept(units[target.value])
    && forall j :: 0 <= j < p ==> Target(sources, mapping, Turn(|sources|, first, j)) != target
  }

  // The first source with an operation for a unit that can take one issues it.
  lemma {:induction false} SomeIssues(units: seq<Unit>, sources: seq<Source>, mapping: map<nat, seq<nat>>, first: nat, p: nat, i: nat)
    requires p < |sources| && i < |units| && CanAccept(units[i])
    requires Target(sources, mapping, Turn(|sources|, first, p)) == Some(i)
    ensures exists j :: 0 <= j <= p && Target(sources, mapping, Turn(|sources|, first, j)) == Some(i) && Issues(units, sources, mapping, first, j)
  {
    hide Target, CanAccept;
    if j: nat :| j < p && Target(sources, mapping, Turn(|sources|, first, j)) == Some(i) {
      SomeIssues(units, sources, mapping, first, j, i);
    }
  }

  // ----- what became of the operations of a source

  // Of some operations, those of source s.
  ghost function FromSource(ops: seq<Op>, s: nat): seq<Op> {
    if ops == [] then []
    else
      var last := ops[|ops| - 1];
      FromSource(ops[..|ops| - 1], s) + if last.source == s then [last] else []
  }

  // Of the operations that source s issued, those that went to unit i, as the unit sees them.
  ghost function ForUnit(ops: seq<Operation>, s: nat, i: nat, mapping: map<nat, seq<nat>>): seq<Op> {
    if ops == [] then []
    else
      var o := ops[|ops| - 1];
      ForUnit(ops[..|ops| - 1], s, i, mapping)
      + if o.kind in mapping && mapping[o.kind] != [] && mapping[o.kind][s % |mapping[o.kind]|] == i
        then [Op(s, o.address, o.registers, o.bits)] else []
  }

  // Each operation that a source issued was accepted once, by its unit, in order.
  ghost predicate Routed(issued: seq<seq<Operation>>, logs: seq<Log>, mapping: map<nat, seq<nat>>) {
    forall s, i :: 0 <= s < |issued| && 0 <= i < |logs| ==> FromSource(logs[i].accepted, s) == ForUnit(issued[s], s, i, mapping)
  }

  lemma RoutedSame(issued: seq<seq<Operation>>, logs: seq<Log>, logs': seq<Log>, mapping: map<nat, seq<nat>>)
    requires Routed(issued, logs, mapping) && SameAccepted(logs, logs')
    ensures Routed(issued, logs', mapping)
  {
  }

  lemma RoutedOneMore(issued: seq<seq<Operation>>, logs: seq<Log>, logs': seq<Log>, mapping: map<nat, seq<nat>>, s: nat, i: nat, o: Operation)
    requires Routed(issued, logs, mapping) && s < |issued| && i < |logs| == |logs'| && OperationOk(o, mapping)
    requires i == UnitIndex(mapping, o.kind, s)
    requires forall j :: 0 <= j < |logs| ==>
      logs'[j].accepted == if j == i then logs[j].accepted + [Op(s, o.address, o.registers, o.bits)] else logs[j].accepted
    ensures Routed(issued[s := issued[s] + [o]], logs', mapping)
  {
    hide ForUnit, FromSource, UnitIndex;
    forall t, j | 0 <= t < |issued| && 0 <= j < |logs|
      ensures FromSource(logs'[j].accepted, t) == ForUnit(issued[s := issued[s] + [o]][t], t, j, mapping)
    {
      assert FromSource(logs[j].accepted, t) == ForUnit(issued[t], t, j, mapping);
      FromSourceLast(logs[j].accepted, Op(s, o.address, o.registers, o.bits), t);
      ForUnitLast(issued[s], o, s, j, mapping);
    }
  }

  lemma FromSourceLast(ops: seq<Op>, op: Op, s: nat)
    ensures FromSource(ops + [op], s) == FromSource(ops, s) + if op.source == s then [op] else []
  {
    assert (ops + [op])[..|ops|] == ops;
  }

  lemma ForUnitLast(ops: seq<Operation>, o: Operation, s: nat, i: nat, mapping: map<nat, seq<nat>>)
    requires OperationOk(o, mapping)
    ensures ForUnit(ops + [o], s, i, mapping) == ForUnit(ops, s, i, mapping)
      + if UnitIndex(mapping, o.kind, s) == i then [Op(s, o.address, o.registers, o.bits)] else []
  {
    assert (ops + [o])[..|ops|] == ops;
  }

  // The operations that a run queues for source s.
  ghost function QueuedIn(events: seq<Event>, n: nat, s: nat, mapping: map<nat, seq<nat>>): seq<Operation>
    requires n <= |events|
  {
    if n == 0 then []
    else QueuedIn(events, n - 1, s, mapping)
         + match events[n - 1]
           case Queue(t, op) => if t == s && OperationOk(op, mapping) then [op] else []
           case Cycle(_, _) => []
  }

  lemma NoneQueued(events: seq<Event>, mapping: map<nat, seq<nat>>)
    ensures forall s: nat :: QueuedIn(events, 0, s, mapping) == []
  {
  }

  lemma QueuedStep(events: seq<Event>, n: nat, mapping: map<nat, seq<nat>>)
    requires n < |events|
    ensures forall s: nat ::
      QueuedIn(events, n + 1, s, mapping) == (
        if events[n].Queue? && events[n].source == s && OperationOk(events[n].op, mapping) then QueuedIn(events, n, s, mapping) + [events[n].op]
        else QueuedIn(events, n, s, mapping))
  {
  }

  // What the first n turns have done: a source that issues hands the front operation of its queue to its
  // unit, and all else is as it was.
  ghost predicate Issued(units0: seq<Unit>, sources0: seq<Source>, logs0: seq<Log>, mapping: map<nat, seq<nat>>, first: nat, n: nat,
                         units: seq<Unit>, sources: seq<Source>, logs: seq<Log>)
  {
    && |units| == |logs| == |logs0| == |units0| && |sources| == |sources0| && n <= |sources0|
    && (forall p: nat :: p < |sources0| ==>
          var s := Turn(|sources0|, first, p);
          sources[s] == if p < n && Issues(units0, sources0, mapping, first, p) then sources0[s].(inputs := sources0[s].inputs[1..])
                        else sources0[s])
    && (forall p: nat :: p < n && Issues(units0, sources0, mapping, first, p) ==>
          var s := Turn(|sources0|, first, p);
          var i, o := Target(sources0, mapping, s).value, sources0[s].inputs[0];
          && units[i] == Accepted(units0[i], Op(s, o.address, o.registers, o.bits))
          && logs[i].accepted == logs0[i].accepted + [Op(s, o.address, o.registers, o.bits)])
    && (forall i: nat :: i < |units0| && NoneFor(units0, sources0, mapping, first, n, i) ==>
          units[i] == units0[i] && logs[i].accepted == logs0[i].accepted)
  }

  // All turns, as far as units and queues are concerned.
  ghost predicate IssuedOnly(units0: seq<Unit>, sources0: seq<Source>, mapping: map<nat, seq<nat>>, first: nat,
                             units: seq<Unit>, sources: seq<Source>)
  {
    && |units| == |units0| && |sources| == |sources0|
    && (forall p: nat :: p < |sources0| ==>
          var s := Turn(|sources0|, first, p);
          sources[s].inputs == if Issues(units0, sources0, mapping, first, p) then sources0[s].inputs[1..] else sources0[s].inputs)
    && (forall p: nat :: p < |sources0| && Issues(units0, sources0, mapping, first, p) ==>
          var s := Turn(|sources0|, first, p);
          var i, o := Target(sources0, mapping, s).value, sources0[s].inputs[0];
          units[i] == Accepted(units0[i], Op(s, o.address, o.registers, o.bits)))
    && (forall i: nat :: i < |units0| && NoneFor(units0, sources0, mapping, first, |sources0|, i) ==> units[i] == units0[i])
  }

  // The units after the first half of a cycle.
  ghost function Moved(units: seq<Unit>, accepts: seq<bool>): (r: seq<Unit>)
    requires |accepts| == |units|
    ensures |r| == |units| && forall i :: 0 <= i < |r| ==> r[i] == Advanced(units[i], Writes(units, accepts, i))
  {
    seq(|units|, i requires 0 <= i < |units| => Advanced(units[i], Writes(units, accepts, i)))
  }

  ghost predicate NoneFor(units: seq<Unit>, sources: seq<Source>, mapping: map<nat, seq<nat>>, first: nat, n: nat, i: nat)
    requires n <= |sources|
  {
    forall p: nat :: p < n && Issues(units, sources, mapping, first, p) ==> Target(sources, mapping, Turn(|sources|, first, p)) != Some(i)
  }

  lemma NothingIssued(units: seq<Unit>, sources: seq<Source>, logs: seq<Log>, mapping: map<nat, seq<nat>>, first: nat)
    requires |logs| == |units|
    ensures Issued(units, sources, logs, mapping, first, 0, units, sources, logs)
  {
  }

  lemma FullAfter(units0: seq<Unit>, sources0: seq<Source>, logs0: seq<Log>, mapping: map<nat, seq<nat>>, first: nat, n: nat,
                  units: seq<Unit>, sources: seq<Source>, logs: seq<Log>, p: nat)
    requires Issued(units0, sources0, logs0, mapping, first, n, units, sources, logs)
    requires p < n && Issues(units0, sources0, mapping, first, p)
    ensures var i := Target(sources0, mapping, Turn(|sources0|, first, p)).value; CanAccept(units0[i]) && !CanAccept(units[i])
  {
    hide CanAccept, Accepted;
    var s := Turn(|sources0|, first, p);
    var i, o := Target(sources0, mapping, s).value, sources0[s].inputs[0];
    var op := Op(s, o.address, o.registers, o.bits);
    assert units[i] == Accepted(units0[i], op);
    FullWhenAccepted(units0[i], op);
  }

  lemma FullWhenAccepted(u: Unit, op: Op)
    ensures !CanAccept(Accepted(u, op))
  {
  }

  // One more turn.
  lemma IssuedStep(units0: seq<Unit>, sources0: seq<Source>, logs0: seq<Log>, mapping: map<nat, seq<nat>>, first: nat, n: nat,
                   units: seq<Unit>, sources: seq<Source>, logs: seq<Log>, issued: bool,
                   units': seq<Unit>, sources': seq<Source>, logs': seq<Log>)
    requires Issued(units0, sources0, logs0, mapping, first, n, units, sources, logs) && n < |sources0|
    requires issued == Issues(units0, sources0, mapping, first, n)
    requires var s := Turn(|sources0|, first, n);
      && sources[s] == sources0[s] && |logs'| == |logs|
      && if issued then
           var i, o := Target(sources0, mapping, s).value, sources0[s].inputs[0];
           var op := Op(s, o.address, o.registers, o.bits);
           && units[i] == units0[i] && logs[i].accepted == logs0[i].accepted
           && units' == units[i := Accepted(units[i], op)] && sources' == sources[s := sources[s].(inputs := sources[s].inputs[1..])]
           && (forall j :: 0 <= j < |logs| ==> logs'[j].accepted == if j == i then logs[j].accepted + [op] else logs[j].accepted)
         else units' == units && sources' == sources && forall j :: 0 <= j < |logs| ==> logs'[j].accepted == logs[j].accepted
    ensures Issued(units0, sources0, logs0, mapping, first, n + 1, units', sources', logs')
  {
    hide Accepted, CanAccept;
    var m := |sources0|;
    forall p: nat | p < m && p != n
      ensures Turn(m, first, p) != Turn(m, first, n)
    {
      if p < n {
        TurnsDiffer(m, first, p, n);
      } else {
        TurnsDiffer(m, first, n, p);
      }
    }
    hide Turn, Target;
    forall p: nat | p < n && Issues(units0, sources0, mapping, first, p) && issued
      ensures Target(sources0, mapping, Turn(m, first, p)) != Target(sources0, mapping, Turn(m, first, n))
    {
    }
    forall i: nat | i < |units0| && NoneFor(units0, sources0, mapping, first, n + 1, i)
      ensures NoneFor(units0, sources0, mapping, first, n, i)
    {
    }
  }

  // At its turn a source finds its unit as it will be found by no source before it that issues.
  lemma TurnDecides(units0: seq<Unit>, sources0: seq<Source>, logs0: seq<Log>, mapping: map<nat, seq<nat>>, first: nat, n: nat,
                    units: seq<Unit>, sources: seq<Source>, logs: seq<Log>)
    requires Issued(units0, sources0, logs0, mapping, first, n, units, sources, logs) && n < |sources0|
    requires var target := Target(sources0, mapping, Turn(|sources0|, first, n)); target.Some? ==> target.value < |units0|
    ensures sources[Turn(|sources0|, first, n)] == sources0[Turn(|sources0|, first, n)]
    ensures var target := Target(sources0, mapping, Turn(|sources0|, first, n));
      && (Issues(units0, sources0, mapping, first, n) <==> target.Some? && CanAccept(units[target.value]))
      && (Issues(units0, sources0, mapping, first, n) ==>
            units[target.value] == units0[target.value] && logs[target.value].accepted == logs0[target.value].accepted)
  {
    hide CanAccept, Accepted, Target;
    var target := Target(sources0, mapping, Turn(|sources0|, first, n));
    if target.Some? {
      var i := target.value;
      if p: nat :| p < n && Issues(units0, sources0, mapping, first, p) && Target(sources0, mapping, Turn(|sources0|, first, p)) == Some(i) {
        FullAfter(units0, sources0, logs0, mapping, first, n, units, sources, logs, p);
      } else {
        assert NoneFor(units0, sources0, mapping, first, n, i);
        if CanAccept(units0[i]) {
          if j: nat :| j < n && Target(sources0, mapping, Turn(|sources0|, first, j)) == target {
            SomeIssues(units0, sources0, mapping, first, j, i);
          }
        }
      }
    }
  }

  // Some of the first n units has work.
  ghost predicate Busy(units: seq<Unit>, n: nat)
    requires n <= |units|
  {
    exists i :: 0 <= i < n && units[i].slots != []
  }

  ghost predicate SameAccepted(logs: seq<Log>, logs': seq<Log>) {
    |logs'| == |logs| && forall i :: 0 <= i < |logs| ==> logs'[i].accepted == logs[i].accepted
  }

  // No unit has accepted more than one operation, and one that has takes no other.
  ghost predicate OneEach(logs: seq<Log>, logs': seq<Log>, units: seq<Unit>) {
    && |logs'| == |logs| == |units|
    && forall i :: 0 <= i < |logs| ==>
         || logs'[i].accepted == logs[i].accepted
         || (!CanAccept(units[i]) && |logs'[i].accepted| == |logs[i].accepted| + 1 && logs[i].accepted < logs'[i].accepted)
  }

  // A source queues an operation, or a cycle passes, some time after the last one.
  datatype Event = Queue(source: nat, op: Operation) | Cycle(idle: nat, accepts: seq<bool>)

  class FPU {
    var units: seq<Unit>
    var sources: seq<Source>
    var lastSource: nat
    const mapping: map<nat, seq<nat>>
    ghost var logs: seq<Log>
    ghost var history: seq<Record>
    ghost var issued: seq<seq<Operation>>  // by source

    ghost predicate Valid(now: nat)
      reads this
    {
      && UnitsOk(units, logs, history, |sources|) && InputsOk(sources, mapping, |units|)
      && OneWriteEach(history) && Remembered(history, sources, now) && WrittenBelow(history, now, |units|)
      && |issued| == |sources| && Routed(issued, logs, mapping)
    }

    // Everything that source s has queued so far.
    ghost function Everything(s: nat): seq<Operation>
      requires s < |sources| && s < |issued|
      reads this`sources, this`issued
    {
      issued[s] + sources[s].inputs
    }

    constructor (units: seq<Unit>, sources: nat, mapping: map<nat, seq<nat>>)
      requires sources > 0 && forall i :: 0 <= i < |units| ==> units[i].latency >= 1 && units[i].slots == []
      requires forall k, m :: k in mapping && 0 <= m < |mapping[k]| ==> mapping[k][m] < |units|
      ensures Valid(0) && this.units == units && |this.sources| == sources && history == [] && lastSource == 0
      ensures |issued| == sources && forall s: nat :: s < sources ==> Everything(s) == []
    {
      this.units, this.mapping := units, mapping;
      this.sources := seq(sources, i => Source([], 0, 0));
      lastSource, history := 0, [];
      logs := seq(|units|, i => Log([], 0, []));
      issued := seq(sources, _ => []);
    }

    // A source asks for an operation.
    method QueueOperation(s: nat, op: Operation, ghost now: nat)
      requires Valid(now) && s < |sources| && OperationOk(op, mapping)
      modifies this`sources
      ensures Valid(now) && sources == old(sources)[s := old(sources)[s].(inputs := old(sources)[s].inputs + [op])]
      ensures |issued| == |sources| && forall t: nat :: t < |sources| ==>
        Everything(t) == if t == s then old(Everything(t)) + [op] else old(Everything(t))
    {
      assert issued[s] + (sources[s].inputs + [op]) == issued[s] + sources[s].inputs + [op];
      sources := sources[s := sources[s].(inputs := sources[s].inputs + [op])];
    }

    // Tries to write back a register of a finished result. A source takes writes from one unit in
    // a cycle, and its client may refuse.
    method OnCompletion(i: nat, w: Write, now: nat, accepts: bool) returns (ok: bool)
      requires w.source < |sources| && OneWriteEach(history) && Remembered(history, sources, now) && WrittenBelow(history, now, i)
      modifies this`sources, this`history
      ensures OneWriteEach(history) && Remembered(history, sources, now) && WrittenBelow(history, now, i + 1)
      ensures |sources| == |old(sources)| && forall s :: 0 <= s < |sources| ==> sources[s].inputs == old(sources)[s].inputs
      ensures history == if ok then old(history) + [Record(now, i, w)] else old(history)
      ensures var free := old(sources)[w.source].lastWrite != now || old(sources)[w.source].lastUnit == i;
        && ok == (free && accepts)
        && sources == if free then old(sources)[w.source := old(sources)[w.source].(lastWrite := now, lastUnit := i)] else old(sources)
    {
      var source := sources[w.source];
      if source.lastWrite == now && source.lastUnit != i {
        return false;
      }
      Claimed(history, sources, now, i, w.source);
      sources := sources[w.source := source.(lastWrite := now, lastUnit := i)];
      if !accepts {
        return false;
      }
      Written(history, sources, now, i, w);
      history := history + [Record(now, i, w)];
      ok := true;
    }

    // One unit's cycle. Returns whether the unit still has work, and whether it could not move on.
    method AdvanceUnit(i: nat, now: nat, accepts: bool) returns (full: bool, failed: bool)
      requires i < |units| && UnitsOk(units, logs, history, |sources|)
      requires OneWriteEach(history) && Remembered(history, sources, now) && WrittenBelow(history, now, i)
      modifies this`units, this`sources, this`logs, this`history
      ensures UnitsOk(units, logs, history, |sources|)
      ensures OneWriteEach(history) && Remembered(history, sources, now) && WrittenBelow(history, now, i + 1)
      ensures |sources| == |old(sources)| && forall s :: 0 <= s < |sources| ==> sources[s].inputs == old(sources)[s].inputs
      ensures var u := old(units)[i];
        var claims := Finished(u) && (old(sources)[u.slots[0].op.source].lastWrite != now || old(sources)[u.slots[0].op.source].lastUnit == i);
        && units == old(units)[i := Advanced(u, claims && accepts)]
        && (Wrote(history, now, i) <==> claims && accepts)
        && sources == if claims then var s := u.slots[0].op.source; old(sources)[s := old(sources)[s].(lastWrite := now, lastUnit := i)]
                      else old(sources)
      ensures full == (units[i].slots != []) && SameAccepted(old(logs), logs)
      ensures old(units)[i].slots != [] ==> (failed <==> !MovesOn(old(units)[i], history, now, i))
      ensures old(units)[i].slots == [] ==> !failed
      ensures forall j: nat :: j < i ==> (Wrote(history, now, j) <==> Wrote(old(history), now, j))
      ensures old(history) <= history
    {
      hide UnitOk, LogOk, OneWriteEach, Remembered, WrittenBelow, ByUnit, Wrote;
      var unit := units[i];
      ghost var h := history;
      var ok := false;
      if Finished(unit) {
        var w := WriteOf(unit.slots[0].op, unit.slots[0].index);
        ok := OnCompletion(i, w, now, accepts);
        WroteOnce(h, now, i, w, ok, history);
      } else {
        NotWriting(history, now, i);
      }
      AdvancedKeeps(units, logs, h, history, |sources|, i, now, ok);
      full := unit.slots != [] && !(ok && LastRegister(unit) && |unit.slots| == 1);
      failed := Finished(unit) && !ok;
      logs := logs[i := AdvancedLog(unit, logs[i], ok)];
      units := units[i := Advanced(unit, ok)];
    }

    method AdvanceUnits(now: nat, accepts: seq<bool>) returns (full: nat, active: nat, failed: nat)
      requires UnitsOk(units, logs, history, |sources|) && |accepts| == |units|
      requires OneWriteEach(history) && Remembered(history, sources, now) && WrittenBelow(history, now, 0)
      requires forall s :: 0 <= s < |sources| ==> sources[s].lastWrite != now
      modifies this`units, this`sources, this`logs, this`history
      ensures UnitsOk(units, logs, history, |sources|) && |units| == |old(units)|
      ensures forall i: nat :: i < |units| ==>
        && units[i] == Advanced(old(units)[i], Writes(old(units), accepts, i))
        && (Wrote(history, now, i) <==> Writes(old(units), accepts, i))
      ensures OneWriteEach(history) && Remembered(history, sources, now) && WrittenBelow(history, now, |units|)
      ensures |sources| == |old(sources)| && forall s :: 0 <= s < |sources| ==> sources[s].inputs == old(sources)[s].inputs
      ensures full > 0 <==> Busy(units, |units|)
      ensures SameAccepted(old(logs), logs)
      ensures failed <= active && (failed < active <==> SomeMoved(old(units), history, now, |old(units)|))
      ensures old(history) <= history
    {
      hide UnitsOk, OneWriteEach, Remembered, WrittenBelow, Wrote, SomeMoved, MovesOn, ClaimedAre, Offered, Advanced, Finished;
      full, active, failed := 0, 0, 0;
      NoneClaimed(units, sources, now);
      NoneMoved(units, history, now);
      for i := 0 to |units|
        invariant UnitsOk(units, logs, history, |sources|) && |units| == |old(units)|
        invariant ClaimedAre(old(units), i, sources, now)
        invariant forall j: nat :: j < i ==> units[j] == Advanced(old(units)[j], Writes(old(units), accepts, j))
        invariant forall j: nat :: j < i ==> (Wrote(history, now, j) <==> Writes(old(units), accepts, j))
        invariant (full > 0 <==> Busy(units, i)) && SameAccepted(old(logs), logs)
        invariant forall j :: i <= j < |units| ==> units[j] == old(units)[j]
        invariant failed <= active && (failed < active <==> SomeMoved(old(units), history, now, i))
        invariant old(history) <= history
        invariant OneWriteEach(history) && Remembered(history, sources, now) && WrittenBelow(history, now, i)
        invariant |sources| == |old(sources)| && forall s :: 0 <= s < |sources| ==> sources[s].inputs == old(sources)[s].inputs
      {
        ghost var before := units;
        ghost var h := history;
        ghost var claimed := sources;
        SourceKnown(units, logs, history, |sources|, i);
        if units[i].slots != [] {
          active := active + 1;
        }
        var busy, stalled := AdvanceUnit(i, now, accepts[i]);
        if stalled {
          failed := failed + 1;
        }
        OneMoreClaimed(old(units), i, claimed, sources, now);
        OneMoreMoved(old(units), h, history, now, i);
        EmptyStays(old(units)[i], history, now, i);
        assert forall j :: 0 <= j < i ==> units[j] == before[j];
        full := if busy then full + 1 else full;
      }
    }

    lemma NoneClaimed(units: seq<Unit>, sources: seq<Source>, now: nat)
      requires forall s :: 0 <= s < |sources| ==> sources[s].lastWrite != now
      ensures ClaimedAre(units, 0, sources, now)
    {
    }

    lemma SourceKnown(units: seq<Unit>, logs: seq<Log>, h: seq<Record>, sources: nat, i: nat)
      requires UnitsOk(units, logs, h, sources) && i < |units|
      ensures Finished(units[i]) ==> units[i].slots[0].op.source < sources
    {
    }

    // Hands the front operation of a source to its unit.
    method HandOver(s: nat, i: nat, ghost now: nat)
      requires Valid(now) && s < |sources| && sources[s].inputs != [] && Target(sources, mapping, s) == Some(i)
      requires i < |units| && CanAccept(units[i])
      modifies this`units, this`sources, this`logs, this`issued
      ensures Valid(now)
      ensures |old(issued)| == |sources| && issued == old(issued)[s := old(issued)[s] + [old(sources)[s].inputs[0]]]
      ensures var o := old(sources)[s].inputs[0];
        var op := Op(s, o.address, o.registers, o.bits);
        && units == old(units)[i := Accepted(old(units)[i], op)] && !CanAccept(units[i])
        && sources == old(sources)[s := old(sources)[s].(inputs := old(sources)[s].inputs[1..])]
        && |logs| == |old(logs)| == |units| && forall j :: 0 <= j < |logs| ==>
             logs[j].accepted == if j == i then old(logs)[j].accepted + [op] else old(logs)[j].accepted
    {
      hide *;
      ValidParts(now);
      var o := sources[s].inputs[0];
      var op := Op(s, o.address, o.registers, o.bits);
      HandedOver(units, sources, logs, issued, history, mapping, now, s, i);
      FullWhenAccepted(units[i], op);
      logs := logs[i := logs[i].(accepted := logs[i].accepted + [op])];
      issued := issued[s := issued[s] + [o]];
      units := units[i := Accepted(units[i], op)];
      sources := sources[s := sources[s].(inputs := sources[s].inputs[1..])];
      ValidFrom(now);
    }

    lemma ValidParts(now: nat)
      requires Valid(now)
      ensures UnitsOk(units, logs, history, |sources|) && InputsOk(sources, mapping, |units|)
      ensures OneWriteEach(history) && Remembered(history, sources, now) && WrittenBelow(history, now, |units|)
      ensures |issued| == |sources| && Routed(issued, logs, mapping) && |logs| == |units|
    {
    }

    lemma ValidFrom(now: nat)
      requires UnitsOk(units, logs, history, |sources|) && InputsOk(sources, mapping, |units|)
      requires OneWriteEach(history) && Remembered(history, sources, now) && WrittenBelow(history, now, |units|)
      requires |issued| == |sources| && Routed(issued, logs, mapping)
      ensures Valid(now)
    {
    }

    lemma HandedOver(units: seq<Unit>, sources: seq<Source>, logs: seq<Log>, issued: seq<seq<Operation>>, h: seq<Record>,
                     mapping: map<nat, seq<nat>>, now: nat, s: nat, i: nat)
      requires UnitsOk(units, logs, h, |sources|) && Remembered(h, sources, now) && Routed(issued, logs, mapping)
      requires |issued| == |sources| && |logs| == |units| && InputsOk(sources, mapping, |units|)
      requires s < |sources| && i < |units| && CanAccept(units[i]) && sources[s].inputs != []
      requires Target(sources, mapping, s) == Some(i)
      ensures var o := sources[s].inputs[0];
        var op := Op(s, o.address, o.registers, o.bits);
        var logs', sources' := logs[i := logs[i].(accepted := logs[i].accepted + [op])], sources[s := sources[s].(inputs := sources[s].inputs[1..])];
        && UnitsOk(units[i := Accepted(units[i], op)], logs', h, |sources|)
        && Remembered(h, sources', now) && InputsOk(sources', mapping, |units|) && Routed(issued[s := issued[s] + [o]], logs', mapping)
    {
      hide *;
      FrontKnown(sources, mapping, |units|, s);
      var o := sources[s].inputs[0];
      var op := Op(s, o.address, o.registers, o.bits);
      AcceptedKeeps(units, logs, h, |sources|, i, op);
      PoppedKeeps(h, sources, now, s, sources[s].inputs[1..]);
      RoutedOneMore(issued, logs, logs[i := logs[i].(accepted := logs[i].accepted + [op])], mapping, s, i, o);
    }

    // Issues from one source, if its unit can take an operation.
    method IssueFrom(s: nat, ghost now: nat) returns (ok: bool)
      requires Valid(now) && s < |sources|
      modifies this`units, this`sources, this`logs, this`issued
      ensures Valid(now) && |sources| == |old(sources)| && |units| == |old(units)|
      ensures |issued| == |old(issued)| == |sources| && forall t: nat :: t < |sources| ==> Everything(t) == old(Everything(t))
      ensures |logs| == |old(logs)| == |units|
      ensures var target := Target(old(sources), mapping, s);
        && (target.Some? <==> old(sources)[s].inputs != []) && (target.Some? ==> target.value < |units|)
        && ok == (target.Some? && CanAccept(old(units)[target.value]))
        && if ok then
             var i, o := target.value, old(sources)[s].inputs[0];
             var op := Op(s, o.address, o.registers, o.bits);
             && units == old(units)[i := Accepted(old(units)[i], op)] && !CanAccept(units[i])
             && sources == old(sources)[s := old(sources)[s].(inputs := old(sources)[s].inputs[1..])]
             && (forall j :: 0 <= j < |logs| ==>
                   logs[j].accepted == if j == i then old(logs)[j].accepted + [op] else old(logs)[j].accepted)
           else units == old(units) && sources == old(sources) && logs == old(logs)
    {
      hide *;
      ValidParts(now);
      FrontKnown(sources, mapping, |units|, s);
      ok := false;
      if sources[s].inputs != [] {
        var kind := sources[s].inputs[0].kind;
        var i := UnitIndex(mapping, kind, s);
        if CanAccept(units[i]) {
          assert issued[s] + sources[s].inputs == (issued[s] + [sources[s].inputs[0]]) + sources[s].inputs[1..];
          HandOver(s, i, now);
          ok := true;
        }
      }
      SameEverything();
    }

    twostate lemma SameEverythingSince()
      requires issued == old(issued) && |issued| == |sources| == |old(sources)|
      requires forall s :: 0 <= s < |sources| ==> sources[s].inputs == old(sources)[s].inputs
      ensures forall t: nat :: t < |sources| ==> Everything(t) == old(Everything(t))
    {
    }

    // Nothing queued is lost when it is issued.
    twostate lemma SameEverything()
      requires |old(issued)| == |old(sources)| == |issued| == |sources|
      requires forall t: nat :: t < |sources| ==> issued[t] + sources[t].inputs == old(issued[t] + sources[t].inputs)
      ensures forall t: nat :: t < |sources| ==> Everything(t) == old(Everything(t))
    {
    }

    // The sources in turn, starting with a different one every cycle.
    method IssueAll(ghost now: nat, full: nat) returns (full': nat, active: nat, failed: nat)
      requires Valid(now) && (full > 0 <==> Busy(units, |units|))
      modifies this`units, this`sources, this`logs, this`issued
      ensures Valid(now) && |units| == |old(units)| && |sources| == |old(sources)|
      ensures |issued| == |old(issued)| == |sources| && forall t: nat :: t < |sources| ==> Everything(t) == old(Everything(t))
      ensures Issued(old(units), old(sources), old(logs), mapping, lastSource, |sources|, units, sources, logs)
      ensures (full' > 0 <==> Busy(units, |units|)) && OneEach(old(logs), logs, units)
      ensures failed <= active && (failed == active <==> SameAccepted(old(logs), logs))
    {
      hide UnitsOk, InputsOk, OneWriteEach, Remembered, WrittenBelow, Issued, Issues, Target, CanAccept, Accepted, Busy, Routed, Everything;
      full', active, failed := full, 0, 0;
      var n := |sources|;
      LogsMatch(units, logs, history, |sources|);
      SomeSource(sources, mapping, |units|);
      NothingIssued(units, sources, logs, mapping, lastSource);
      for i := lastSource to lastSource + n
        invariant Valid(now) && |units| == |old(units)| && |sources| == n
        invariant |issued| == |old(issued)| == n && forall t: nat :: t < n ==> Everything(t) == old(Everything(t))
        invariant Issued(old(units), old(sources), old(logs), mapping, lastSource, i - lastSource, units, sources, logs)
        invariant (full' > 0 <==> Busy(units, |units|)) && OneEach(old(logs), logs, units)
        invariant failed <= active && (failed == active <==> SameAccepted(old(logs), logs))
      {
        ghost var units1, sources1, logs1 := units, sources, logs;
        TargetKnown(old(sources), mapping, |units|, i % n);
        TurnDecides(old(units), old(sources), old(logs), mapping, lastSource, i - lastSource, units, sources, logs);
        SameTarget(sources, old(sources), mapping, i % n);
        var asked := sources[i % n].inputs != [];
        var ok := Issue(i % n, now);
        IssuedStep(old(units), old(sources), old(logs), mapping, lastSource, i - lastSource, units1, sources1, logs1, ok, units, sources, logs);
        full' := if ok then full' + 1 else full';
        if asked {
          active := active + 1;
          if !ok {
            failed := failed + 1;
          }
        }
      }
    }

    // IssueFrom, in terms of what all units together have accepted.
    method Issue(s: nat, ghost now: nat) returns (ok: bool)
      requires Valid(now) && s < |sources|
      modifies this`units, this`sources, this`logs, this`issued
      ensures Valid(now) && |units| == |old(units)| && |sources| == |old(sources)|
      ensures |issued| == |old(issued)| == |sources| && forall t: nat :: t < |sources| ==> Everything(t) == old(Everything(t))
      ensures var target := Target(old(sources), mapping, s);
        && (target.Some? <==> old(sources)[s].inputs != []) && (target.Some? ==> target.value < |units|)
        && |logs| == |old(logs)| && ok == (target.Some? && CanAccept(old(units)[target.value]))
        && if ok then
             var i, o := target.value, old(sources)[s].inputs[0];
             var op := Op(s, o.address, o.registers, o.bits);
             && units == old(units)[i := Accepted(old(units)[i], op)]
             && sources == old(sources)[s := old(sources)[s].(inputs := old(sources)[s].inputs[1..])]
             && (forall j :: 0 <= j < |logs| ==>
                   logs[j].accepted == if j == i then old(logs)[j].accepted + [op] else old(logs)[j].accepted)
           else units == old(units) && sources == old(sources) && logs == old(logs)
      ensures Busy(units, |units|) <==> ok || Busy(old(units), |old(units)|)
      ensures forall logs0 :: OneEach(logs0, old(logs), old(units)) ==> OneEach(logs0, logs, units)
      ensures ok ==> old(sources)[s].inputs != []
      ensures !ok ==> SameAccepted(old(logs), logs)
      ensures ok ==> forall logs0 :: OneEach(logs0, old(logs), old(units)) ==> !SameAccepted(logs0, logs)
    {
      hide UnitsOk, OneWriteEach, Remembered, WrittenBelow, Routed, Everything;
      ok := IssueFrom(s, now);
      if ok {
        ghost var i := Target(old(sources), mapping, s).value;
        assert units[i].slots != [];
        assert forall j :: 0 <= j < |units| && old(units)[j].slots != [] ==> units[j].slots != [];
      }
    }

    lemma SameTarget(sources: seq<Source>, sources0: seq<Source>, mapping: map<nat, seq<nat>>, s: nat)
      requires s < |sources| == |sources0|
      ensures sources[s] == sources0[s] ==> Target(sources, mapping, s) == Target(sources0, mapping, s)
    {
    }

    lemma FrontKnown(sources: seq<Source>, mapping: map<nat, seq<nat>>, units: nat, s: nat)
      requires InputsOk(sources, mapping, units) && s < |sources|
      ensures var inputs := sources[s].inputs;
        if inputs == [] then Target(sources, mapping, s) == None
        else
          && OperationOk(inputs[0], mapping) && inputs[0].registers > 0 && inputs[0].kind in mapping && mapping[inputs[0].kind] != []
          && Target(sources, mapping, s) == Some(UnitIndex(mapping, inputs[0].kind, s))
          && Target(sources, mapping, s).value < units
          && InputsOk(sources[s := sources[s].(inputs := inputs[1..])], mapping, units)
    {
    }

    lemma TargetKnown(sources: seq<Source>, mapping: map<nat, seq<nat>>, units: nat, s: nat)
      requires InputsOk(sources, mapping, units) && s < |sources|
      ensures var target := Target(sources, mapping, s);
        (target.Some? <==> sources[s].inputs != []) && (target.Some? ==> target.value < units)
    {
    }

    lemma LogsMatch(units: seq<Unit>, logs: seq<Log>, h: seq<Record>, sources: nat)
      requires UnitsOk(units, logs, h, sources)
      ensures |logs| == |units|
    {
    }

    // Only the queues matter to who issues.
    lemma SameIssues(units0: seq<Unit>, sources0: seq<Source>, sources1: seq<Source>, logs0: seq<Log>, mapping: map<nat, seq<nat>>,
                     first: nat, units: seq<Unit>, sources: seq<Source>, logs: seq<Log>)
      requires Issued(units0, sources1, logs0, mapping, first, |sources1|, units, sources, logs)
      requires |sources0| == |sources1| && forall s :: 0 <= s < |sources0| ==> sources0[s].inputs == sources1[s].inputs
      ensures IssuedOnly(units0, sources0, mapping, first, units, sources)
    {
      hide CanAccept, Accepted;
      forall p: nat | p < |sources0|
        ensures Issues(units0, sources0, mapping, first, p) <==> Issues(units0, sources1, mapping, first, p)
        ensures Target(sources0, mapping, Turn(|sources0|, first, p)) == Target(sources1, mapping, Turn(|sources0|, first, p))
      {
        assert forall j :: 0 <= j <= p ==>
          Target(sources0, mapping, Turn(|sources0|, first, j)) == Target(sources1, mapping, Turn(|sources0|, first, j));
      }
      hide Issues, Target;
      forall i: nat | i < |units0| && NoneFor(units0, sources0, mapping, first, |sources0|, i)
        ensures NoneFor(units0, sources1, mapping, first, |sources1|, i)
      {
      }
    }

    // A cycle, later than the one before. The unit stays active exactly if it has work left, and
    // reports success exactly if a pipeline moved on or an operation was issued.
    method DoPipeline(ghost before: nat, now: nat, accepts: seq<bool>) returns (active: bool, success: bool)
      requires Valid(before) && before < now && |accepts| == |units|
      modifies this`units, this`sources, this`logs, this`issued, this`history, this`lastSource
      ensures Valid(now) && |units| == |old(units)| && |sources| == |old(sources)|
      ensures forall i: nat :: i < |units| ==> (Wrote(history, now, i) <==> Writes(old(units), accepts, i))
      ensures IssuedOnly(Moved(old(units), accepts), old(sources), mapping, old(lastSource), units, sources)
      ensures |issued| == |old(issued)| == |sources| && forall t: nat :: t < |sources| ==> Everything(t) == old(Everything(t))
      ensures lastSource == (old(lastSource) + 1) % |sources|
      ensures active <==> Busy(units, |units|)
      ensures OneEach(old(logs), logs, units)
      ensures success <==> SomeMoved(old(units), history, now, |old(units)|) || !SameAccepted(old(logs), logs)
      ensures old(history) <= history
    {
      hide *;
      ValidParts(before);
      NoneLater(history, before, |units|);
      SomeSource(sources, mapping, |units|);
      Later(history, sources, before, now);
      NotYet(history, sources, before, now);
      var full, unitsActive, unitsFailed := AdvanceUnits(now, accepts);
      InputsKept(old(sources), sources, mapping, |units|);
      assert units == Moved(old(units), accepts);
      RoutedSame(issued, old(logs), logs, mapping);
      ValidFrom(now);
      SameEverythingSince();
      ghost var sources1, logs1, units1 := sources, logs, units;
      var sourcesActive, sourcesFailed;
      full, sourcesActive, sourcesFailed := IssueAll(now, full);
      SameIssues(units1, old(sources), sources1, logs1, mapping, lastSource, units, sources, logs);
      AcceptedSince(old(logs), logs1, logs, units);
      ValidParts(now);
      lastSource := (lastSource + 1) % |sources|;
      ValidFrom(now);
      active := full > 0;
      success := !(unitsFailed == unitsActive && sourcesFailed == sourcesActive);
    }

    // Any run of cycles, with operations queued in between: events that cannot be are skipped. Nothing
    // written back is ever undone, and every unit takes on operations one by one.
    method Run(events: seq<Event>, start: nat) returns (now: nat)
      requires Valid(start)
      modifies this`units, this`sources, this`logs, this`issued, this`history, this`lastSource
      ensures Valid(now) && start <= now && |units| == |old(units)| && |sources| == |old(sources)|
      ensures old(history) <= history
      ensures |logs| == |old(logs)| && forall i :: 0 <= i < |logs| ==> old(logs)[i].accepted <= logs[i].accepted
      ensures |issued| == |old(issued)| == |sources| && Routed(issued, logs, mapping)
      ensures forall s: nat :: s < |sources| ==> Everything(s) == old(Everything(s)) + QueuedIn(events, |events|, s, mapping)
    {
      hide *;
      now := start;
      SameSizes(now);
      NoneQueued(events, mapping);
      for n := 0 to |events|
        invariant Valid(now) && start <= now && |units| == |old(units)| && |sources| == |old(sources)|
        invariant old(history) <= history
        invariant |issued| == |old(issued)| == |sources|
        invariant forall s: nat :: s < |sources| ==> Everything(s) == old(Everything(s)) + QueuedIn(events, n, s, mapping)
        invariant |logs| == |old(logs)| == |units| && forall i :: 0 <= i < |logs| ==> old(logs)[i].accepted <= logs[i].accepted
      {
        QueuedStep(events, n, mapping);
        match events[n] {
          case Queue(s, op) =>
            if s < |sources| && OperationOk(op, mapping) {
              QueueOperation(s, op, now);
            }
          case Cycle(idle, accepts) =>
            if |accepts| == |units| {
              ghost var logs0 := logs;
              var _, _ := DoPipeline(now, now + 1 + idle, accepts);
              AcceptedGrows(logs0, logs, units);
              now := now + 1 + idle;
            }
        }
      }
      SameSizes(now);
    }

    lemma AcceptedGrows(logs: seq<Log>, logs': seq<Log>, units: seq<Unit>)
      requires OneEach(logs, logs', units)
      ensures |logs'| == |logs| == |units| && forall i :: 0 <= i < |logs| ==> logs[i].accepted <= logs'[i].accepted
    {
      hide CanAccept;
    }

    lemma SameSizes(now: nat)
      requires Valid(now)
      ensures |logs| == |units| && |issued| == |sources| && Routed(issued, logs, mapping)
    {
    }
  }

  lemma Later(h: seq<Record>, sources: seq<Source>, before: nat, now: nat)
    requires Remembered(h, sources, before) && before < now && forall n :: 0 <= n < |h| ==> h[n].cycle <= before
    ensures Remembered(h, sources, now) && WrittenBelow(h, now, 0)
  {
  }

  lemma AcceptedSince(logs0: seq<Log>, logs1: seq<Log>, logs: seq<Log>, units: seq<Unit>)
    requires SameAccepted(logs0, logs1) && OneEach(logs1, logs, units)
    ensures OneEach(logs0, logs, units) && (SameAccepted(logs0, logs) <==> SameAccepted(logs1, logs))
  {
    hide CanAccept;
  }

  lemma NoneLater(h: seq<Record>, now: nat, n: nat)
    requires WrittenBelow(h, now, n)
    ensures forall k :: 0 <= k < |h| ==> h[k].cycle <= now
  {
  }

  lemma NotYet(h: seq<Record>, sources: seq<Source>, before: nat, now: nat)
    requires Remembered(h, sources, before) && before < now
    ensures forall s :: 0 <= s < |sources| ==> sources[s].lastWrite != now
  {
  }

  lemma InputsKept(sources: seq<Source>, sources': seq<Source>, mapping: map<nat, seq<nat>>, units: nat)
    requires InputsOk(sources, mapping, units) && |sources'| == |sources|
    requires forall s :: 0 <= s < |sources| ==> sources'[s].inputs == sources[s].inputs
    ensures InputsOk(sources', mapping, units)
  {
  }

  lemma SomeSource(sources: seq<Source>, mapping: map<nat, seq<nat>>, units: nat)
    requires InputsOk(sources, mapping, units)
    ensures |sources| > 0
  {
  }

  lemma NoneMoved(units: seq<Unit>, h: seq<Record>, now: nat)
    ensures !SomeMoved(units, h, now, 0)
  {
  }

  lemma EmptyStays(u: Unit, h: seq<Record>, now: nat, i: nat)
    ensures u.slots == [] ==> !MovesOn(u, h, now, i)
  {
  }

  lemma NotWriting(h: seq<Record>, now: nat, i: nat)
    requires WrittenBelow(h, now, i)
    ensures WrittenBelow(h, now, i + 1) && !Wrote(h, now, i)
  {
  }

  lemma AdvancedKeeps(units: seq<Unit>, logs: seq<Log>, h: seq<Record>, h': seq<Record>, sources: nat, i: nat, now: nat, ok: bool)
    requires UnitsOk(units, logs, h, sources) && i < |units|
    requires ok ==> Finished(units[i])
    requires h' == if ok then h + [Record(now, i, WriteOf(units[i].slots[0].op, units[i].slots[0].index))] else h
    ensures UnitsOk(units[i := Advanced(units[i], ok)], logs[i := AdvancedLog(units[i], logs[i], ok)], h', sources)
  {
    hide UnitOk, LogOk, FromSources, ByUnit, Advanced;
    AdvancedOk(units[i], ok);
    AdvancedLogOk(units[i], logs[i], ok);
    AdvancedFromSources(units[i], ok, sources);
    if ok {
      forall n: nat
        ensures ByUnit(h', n) == if n == i then ByUnit(h, n) + [h'[|h|].write] else ByUnit(h, n)
      {
        ByUnitOneMore(h, h'[|h|], n);
      }
    }
  }

  // A source hands the first operation of its queue to a unit.
  lemma AcceptedKeeps(units: seq<Unit>, logs: seq<Log>, h: seq<Record>, sources: nat, i: nat, op: Op)
    requires UnitsOk(units, logs, h, sources) && i < |units| && CanAccept(units[i])
    requires op.source < sources && op.registers > 0
    ensures UnitsOk(units[i := Accepted(units[i], op)], logs[i := logs[i].(accepted := logs[i].accepted + [op])], h, sources)
    ensures !CanAccept(Accepted(units[i], op))
  {
    hide UnitOk, LogOk, ByUnit;
    AcceptedOk(units[i], op);
    AcceptedLogOk(units[i], logs[i], op);
  }

  // Popping inputs changes nothing that writing back depends on.
  lemma PoppedKeeps(h: seq<Record>, sources: seq<Source>, now: nat, s: nat, inputs: seq<Operation>)
    requires Remembered(h, sources, now) && s < |sources|
    ensures Remembered(h, sources[s := sources[s].(inputs := inputs)], now)
  {
  }
}
