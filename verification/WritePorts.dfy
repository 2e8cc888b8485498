// sim/ports.h: the write ports of a shared structure. Each port first picks one of its own
// processes; the ports that then want the same index compete by priority.
module WritePorts {
  import opened Options
  import Arbitration
  import Chains

  type Pid = Arbitration.Pid

  // ----- what arbitration should decide, as values

  // asked[k] is the index port k wants, rank[k] its place in the priority list, or the number of
  // ranked ports when it has none. A port is chosen when no port for the same index ranks before it.
  ghost predicate Chosen(asked: seq<Option<nat>>, rank: seq<nat>, ranked: nat, k: nat)
    requires k < |asked| == |rank|
  {
    && asked[k].Some? && rank[k] < ranked
    && forall j :: 0 <= j < |asked| && asked[j] == asked[k] ==> rank[k] <= rank[j]
  }

  ghost predicate Ranks(rank: seq<nat>, ranked: nat) {
    && (forall k :: 0 <= k < |rank| ==> rank[k] <= ranked)
    && (forall j, k :: 0 <= j < k < |rank| && rank[j] < ranked ==> rank[j] != rank[k])
  }

  // No two ports are chosen for the same index.
  lemma ChosenOnce(asked: seq<Option<nat>>, rank: seq<nat>, ranked: nat, j: nat, k: nat)
    requires j < |asked| == |rank| && k < |asked| && Ranks(rank, ranked)
    requires Chosen(asked, rank, ranked, j) && Chosen(asked, rank, ranked, k) && asked[j] == asked[k]
    ensures j == k
  {
    assert rank[j] == rank[k];
  }

  // The best ranked of the ports for an index, among the first n.
  ghost function Best(asked: seq<Option<nat>>, rank: seq<nat>, i: Option<nat>, n: nat): (b: nat)
    requires n <= |asked| == |rank| && exists k :: 0 <= k < n && asked[k] == i
    ensures b < n && asked[b] == i && forall k :: 0 <= k < n && asked[k] == i ==> rank[b] <= rank[k]
  {
    if exists k :: 0 <= k < n - 1 && asked[k] == i then
      var b := Best(asked, rank, i, n - 1);
      if asked[n - 1] == i && rank[n - 1] < rank[b] then n - 1 else b
    else n - 1
  }

  // An index that is asked for has a chosen port if and only if one of its ports is ranked.
  lemma ChosenForIndex(asked: seq<Option<nat>>, rank: seq<nat>, ranked: nat, k: nat)
    requires k < |asked| == |rank| && Ranks(rank, ranked) && asked[k].Some?
    ensures (exists j :: 0 <= j < |asked| && asked[j] == asked[k] && Chosen(asked, rank, ranked, j))
      <==> (exists j :: 0 <= j < |asked| && asked[j] == asked[k] && rank[j] < ranked)
  {
    if j :| 0 <= j < |asked| && asked[j] == asked[k] && rank[j] < ranked {
      var b := Best(asked, rank, asked[k], |asked|);
      assert Chosen(asked, rank, ranked, b);
    }
  }

  // The ports, by position, that ask for each index.
  ghost predicate Grouped(asked: seq<Option<nat>>, groups: map<nat, seq<nat>>, n: nat)
    requires n <= |asked|
  {
    && (forall i, m :: i in groups && 0 <= m < |groups[i]| ==> groups[i][m] < n && asked[groups[i][m]] == Some(i))
    && (forall k: nat :: k < n && asked[k].Some? ==> asked[k].value in groups && k in groups[asked[k].value])
  }

  lemma GroupedOneMore(asked: seq<Option<nat>>, groups: map<nat, seq<nat>>, n: nat)
    requires n < |asked| && Grouped(asked, groups, n)
    ensures asked[n].None? ==> Grouped(asked, groups, n + 1)
    ensures asked[n].Some? ==>
      Grouped(asked, groups[asked[n].value := (if asked[n].value in groups then groups[asked[n].value] else []) + [n]], n + 1)
  {
  }

  // What a process asks of a port in the first phase of a cycle.
  datatype Asking = Asking(port: nat, process: Pid, index: nat, cycle: nat)

  // The last index that each process asked for through each port, among the first n requests that
  // were taken.
  ghost function LastAsked(asks: seq<Asking>, oks: seq<bool>, n: nat): map<(nat, Pid), nat>
    requires n <= |asks| && n <= |oks|
  {
    if n == 0 then map[]
    else
      var before := LastAsked(asks, oks, n - 1);
      if oks[n - 1] then before[(asks[n - 1].port, asks[n - 1].process) := asks[n - 1].index] else before
  }

  lemma {:induction false} LastAskedMore(asks: seq<Asking>, oks: seq<bool>, ok: bool, n: nat)
    requires n <= |oks| < |asks|
    ensures LastAsked(asks, oks + [ok], n) == LastAsked(asks, oks, n)
  {
    if n > 0 {
      LastAskedMore(asks, oks, ok, n - 1);
    }
  }

  lemma {:induction false} LastAskedIsAsked(asks: seq<Asking>, oks: seq<bool>, n: nat, k: nat, p: Pid)
    requires n <= |asks| && n <= |oks| && (k, p) in LastAsked(asks, oks, n)
    ensures exists m :: 0 <= m < n && asks[m].port == k && asks[m].process == p && asks[m].index == LastAsked(asks, oks, n)[(k, p)]
  {
    if oks[n - 1] && asks[n - 1].port == k && asks[n - 1].process == p {
    } else {
      LastAskedIsAsked(asks, oks, n - 1, k, p);
    }
  }

  // ----- a write port: dedicated to one process, or with an arbiter for several

  class WritePort {
    const arbiter: Arbitration.Port?
    const process: Pid
    var indices: map<Pid, nat>
    var index: nat
    var valid: bool
    var chosen: bool

    constructor (arbiter: Arbitration.Port?, process: Pid)
      ensures this.arbiter == arbiter && this.process == process && !valid && !chosen && indices == map[]
    {
      this.arbiter, this.process := arbiter, process;
      indices, index, valid, chosen := map[], 0, false, false;
    }

    // An arbitrated port knows the index of every process that asked, and keeps no request of its
    // own between rounds.
    ghost predicate Ready()
      reads this, arbiter
    {
      arbiter != null ==>
        && arbiter.Valid() && arbiter.cyclicProcesses == [] && !valid
        && forall r :: r in arbiter.requests ==> r in indices
    }

    method SetRequestIndex(i: nat)
      requires !valid
      modifies this`index, this`valid, this`chosen
      ensures index == i && valid && !chosen
    {
      index, valid, chosen := i, true, false;
    }

    method Notify(c: bool)
      modifies this`chosen, this`valid
      ensures chosen == c && !valid
    {
      chosen, valid := c, false;
    }

    // The processes that may use the port: its own or, with an arbiter, those registered there.
    predicate CanAccess(p: Pid)
      reads this, arbiter
    {
      if arbiter == null then p == process else p in arbiter.processes
    }

    // The process of a dedicated port asks to write in the first phase of a cycle.
    method RequestDedicated(p: Pid, i: nat)
      requires arbiter == null && CanAccess(p) && !valid
      modifies this`index, this`valid, this`chosen
      ensures Ready() && Wanted() == Some(i) && !chosen
    {
      SetRequestIndex(i);
    }

    // A process of an arbitrated port does.
    method Request(p: Pid, i: nat, cycle: nat)
      requires arbiter != null && Ready() && CanAccess(p)
      requires p in arbiter.requests ==> arbiter.lastRequest != Some(cycle)
      modifies this`indices, arbiter
      ensures Ready() && indices == old(indices)[p := i]
      ensures arbiter.requests == if p in old(arbiter.requests) then old(arbiter.requests) else old(arbiter.requests) + [p]
      ensures arbiter.processes == old(arbiter.processes)
    {
      arbiter.AddRequest(p, cycle);
      indices := indices[p := i];
    }

    ghost predicate HoldsRequest()
      reads this, arbiter
    {
      if arbiter == null then valid else arbiter.requests != []
    }

    // The port, the k-th of its structure, holds no requests but those in taken: for each port and
    // process the index asked for. If there are any for it, it holds some.
    ghost predicate HoldsOnly(k: nat, taken: map<(nat, Pid), nat>)
      reads this, arbiter
    {
      && (forall q: Pid :: (k, q) in taken ==> HoldsRequest())
      && if arbiter == null then valid ==> (k, process) in taken && taken[(k, process)] == index
         else forall q :: q in arbiter.requests ==> q in indices && (k, q) in taken && taken[(k, q)] == indices[q]
    }

    // A process asks. It must have access to the port, and a dedicated port must not have been asked
    // yet; through an arbitrated one a process of a faster clock may ask again in a later cycle before
    // arbitration, and for another index. The source asserts all this.
    method Ask(k: nat, p: Pid, i: nat, cycle: nat, ghost taken: map<(nat, Pid), nat>) returns (ok: bool)
      requires Ready() && HoldsOnly(k, taken)
      modifies this`indices, this`index, this`valid, this`chosen, arbiter
      ensures Ready() && HoldsOnly(k, if ok then taken[(k, p) := i] else taken)
      ensures arbiter != null ==> arbiter.processes == old(arbiter.processes)
      ensures CanAccess(p) ==> ok || (k, p) in taken
      ensures ok <==> old(CanAccess(p) && if arbiter == null then !valid else p in arbiter.requests ==> arbiter.lastRequest != Some(cycle))
    {
      ok := false;
      if arbiter == null {
        if p == process && !valid {
          RequestDedicated(p, i);
          ok := true;
        }
      } else if p in arbiter.processes && (p in arbiter.requests ==> arbiter.lastRequest != Some(cycle)) {
        Request(p, i, cycle);
        ok := true;
      }
    }

    // Whether a process that asked may write in the later phases.
    predicate MayWrite(p: Pid)
      requires CanAccess(p)
      reads this, arbiter
    {
      chosen && (arbiter != null ==> arbiter.selected == Some(p))
    }

    // The index this port wants once its own processes have been arbitrated.
    function Wanted(): Option<nat>
      reads this
    {
      if valid then Some(index) else None
    }

    method Arbitrate()
      requires arbiter != null && Ready()
      modifies this`index, this`valid, this`chosen, arbiter
      ensures arbiter.Valid() && arbiter.cyclicProcesses == [] && arbiter.requests == [] && arbiter.processes == old(arbiter.processes)
      ensures arbiter.selected.None? <==> old(arbiter.requests) == []
      ensures arbiter.selected.Some? ==>
        Arbitration.FirstInList(arbiter.selected.value, old(arbiter.requests), arbiter.processes) && arbiter.selected.value in indices
      ensures Wanted() == if arbiter.selected.Some? then Some(indices[arbiter.selected.value]) else None
    {
      arbiter.ArbitratePriority();
      if arbiter.selected.Some? {
        SetRequestIndex(indices[arbiter.selected.value]);
      }
    }
  }

  // ----- the structure

  class Structure {
    var writePorts: seq<WritePort>
    var priorities: seq<WritePort>

    ghost function Arbiters(): set<Arbitration.Port>
      reads this
    {
      set k | 0 <= k < |writePorts| && writePorts[k].arbiter != null :: writePorts[k].arbiter
    }

    // Ports are registered once, and no two share an arbiter.
    ghost predicate Separate()
      reads this
    {
      && Chains.Distinct(writePorts) && Chains.Distinct(priorities)
      && forall j, k :: 0 <= j < k < |writePorts| && writePorts[j].arbiter != null ==> writePorts[j].arbiter != writePorts[k].arbiter
    }

    ghost predicate Valid()
      reads this, writePorts, Arbiters()
    {
      Separate() && forall k :: 0 <= k < |writePorts| ==> writePorts[k].Ready()
    }

    ghost function Asked(): (asked: seq<Option<nat>>)
      reads this, writePorts
      ensures |asked| == |writePorts|
    {
      seq(|writePorts|, k requires 0 <= k < |writePorts| reads this, writePorts => writePorts[k].Wanted())
    }

    ghost function Rank(): (rank: seq<nat>)
      reads this
      ensures |rank| == |writePorts|
    {
      seq(|writePorts|, k requires 0 <= k < |writePorts| reads this => Arbitration.Find(priorities, writePorts[k]))
    }

    constructor ()
      ensures Valid() && writePorts == [] && priorities == []
    {
      writePorts, priorities := [], [];
    }

    method RegisterWritePort(p: WritePort)
      requires Valid() && p !in writePorts && p.Ready()
      requires p.arbiter != null ==> p.arbiter !in Arbiters()
      modifies this`writePorts
      ensures Valid() && writePorts == old(writePorts) + [p]
    {
      writePorts := writePorts + [p];
    }

    method AddPort(p: WritePort)
      requires Valid() && p in writePorts && p !in priorities
      modifies this`priorities
      ensures Valid() && priorities == old(priorities) + [p]
    {
      priorities := priorities + [p];
    }

    // Lets every arbitrated port pick one of its processes.
    method ArbitrateWritePorts()
      requires Valid()
      modifies writePorts, Arbiters()
      ensures forall k :: 0 <= k < |writePorts| ==> Picked(writePorts[k])
    {
      for k := 0 to |writePorts|
        invariant forall j :: 0 <= j < k ==> Picked(writePorts[j])
        invariant forall j :: k <= j < |writePorts| ==> Untouched(writePorts[j]) && writePorts[j].Ready()
      {
        var p := writePorts[k];
        if p.arbiter != null {
          p.Arbitrate();
        }
      }
    }

    // An arbitrated port has answered its processes; the others wait as they were.
    twostate predicate Picked(p: WritePort)
      reads p, p.arbiter
    {
      && WasAsked(p, p.Wanted())
      && if p.arbiter == null then Untouched(p) else p.arbiter.Valid() && p.arbiter.cyclicProcesses == [] && p.arbiter.requests == []
    }

    // asked is the index that p's own arbitration left it with: that of the earliest of its
    // processes that asked or, without an arbiter, the one it held.
    twostate predicate WasAsked(p: WritePort, new asked: Option<nat>)
      reads p, p.arbiter
    {
      if p.arbiter == null then asked == old(p.Wanted())
      else
        && p.indices == old(p.indices) && p.arbiter.processes == old(p.arbiter.processes)
        && (p.arbiter.selected.None? <==> old(p.arbiter.requests) == [])
        && (p.arbiter.selected.Some? ==>
              && p.arbiter.selected.value in p.indices
              && Arbitration.FirstInList(p.arbiter.selected.value, old(p.arbiter.requests), p.arbiter.processes))
        && asked == if p.arbiter.selected.Some? then Some(p.indices[p.arbiter.selected.value]) else None
    }

    twostate predicate Untouched(p: WritePort)
      reads p, p.arbiter
    {
      unchanged(p) && (p.arbiter != null ==> unchanged(p.arbiter))
    }

    method CollectRequests() returns (requests: map<nat, seq<nat>>)
      ensures Grouped(Asked(), requests, |writePorts|)
    {
      requests := map[];
      for k := 0 to |writePorts|
        invariant Grouped(Asked(), requests, k)
      {
        GroupedOneMore(Asked(), requests, k);
        var i := writePorts[k].Wanted();
        if i.Some? {
          requests := requests[i.value := (if i.value in requests then requests[i.value] else []) + [k]];
        }
      }
    }

    // The port of a group that comes first in the priority list.
    method PickPort(group: seq<nat>) returns (selected: Option<nat>)
      requires forall m :: 0 <= m < |group| ==> group[m] < |writePorts|
      ensures selected.None? ==> forall k :: k in group ==> Rank()[k] == |priorities|
      ensures selected.Some? ==>
        && selected.value in group && Rank()[selected.value] < |priorities|
        && forall k :: k in group ==> Rank()[selected.value] <= Rank()[k]
    {
      selected := None;
      var min := |priorities|;
      for m := 0 to |group|
        invariant min <= |priorities| && (selected.None? <==> min == |priorities|)
        invariant selected.Some? ==> selected.value in group && Rank()[selected.value] == min
        invariant forall j :: 0 <= j < m ==> min <= Rank()[group[j]]
      {
        var rank := Arbitration.Find(priorities, writePorts[group[m]]);
        if rank < min {
          min := rank;
          selected := Some(group[m]);
        }
      }
    }

    // Tells every port of a group whether it was chosen.
    method NotifyAll(group: seq<nat>, selected: Option<nat>)
      requires forall m :: 0 <= m < |group| ==> group[m] < |writePorts|
      requires Chains.Distinct(writePorts)
      modifies writePorts
      ensures forall k :: 0 <= k < |writePorts| && k in group ==> !writePorts[k].valid && writePorts[k].chosen == (selected == Some(k))
      ensures forall k :: 0 <= k < |writePorts| && k !in group ==> unchanged(writePorts[k])
      ensures forall k :: 0 <= k < |writePorts| ==> writePorts[k].indices == old(writePorts[k].indices)
    {
      for m := 0 to |group|
        invariant forall k :: 0 <= k < |writePorts| && k in group[..m] ==> !writePorts[k].valid && writePorts[k].chosen == (selected == Some(k))
        invariant forall k :: 0 <= k < |writePorts| && k !in group[..m] ==> unchanged(writePorts[k])
        invariant forall k :: 0 <= k < |writePorts| ==> writePorts[k].indices == old(writePorts[k].indices)
      {
        writePorts[group[m]].Notify(selected == Some(group[m]));
        assert group[..m + 1] == group[..m] + [group[m]];
      }
      assert group[..|group|] == group;
    }

    lemma RanksAreRanks()
      requires Separate()
      ensures Ranks(Rank(), |priorities|)
    {
    }

    // The outcome for port p, the k-th: its request is consumed and answered, or it had none.
    twostate predicate Answered(p: WritePort, k: nat, asked: seq<Option<nat>>, rank: seq<nat>)
      requires k < |asked| == |rank|
      reads this, p
    {
      if asked[k].Some? then !p.valid && (p.chosen <==> Chosen(asked, rank, |priorities|, k)) else unchanged(p)
    }

    // Settles every index: the earliest port in the priority list among those that ask for it.
    method Decide(requests: map<nat, seq<nat>>)
      requires Separate() && Grouped(Asked(), requests, |writePorts|)
      modifies writePorts
      ensures forall k: nat :: k < |writePorts| ==> Answered(writePorts[k], k, old(Asked()), Rank())
      ensures forall k :: 0 <= k < |writePorts| ==> writePorts[k].indices == old(writePorts[k].indices)
    {
      ghost var asked, rank := Asked(), Rank();
      RanksAreRanks();
      var keys := requests.Keys;
      while keys != {}
        invariant keys <= requests.Keys
        invariant forall k: nat :: k < |writePorts| && asked[k].Some? && asked[k].value !in keys ==> Answered(writePorts[k], k, asked, rank)
        invariant forall k: nat :: k < |writePorts| && (asked[k].Some? ==> asked[k].value in keys) ==> unchanged(writePorts[k])
        invariant forall k :: 0 <= k < |writePorts| ==> writePorts[k].indices == old(writePorts[k].indices)
        decreases keys
      {
        var i :| i in keys;
        keys := keys - {i};
        var group := requests[i];
        var selected := PickPort(group);
        label L:
        NotifyAll(group, selected);
        forall k: nat | k < |writePorts| && asked[k] == Some(i)
          ensures Answered(writePorts[k], k, asked, rank)
        {
          PickedIsChosen(asked, rank, |priorities|, group, i, selected, k);
        }
      }
    }

    // After arbitration: every request is consumed, an arbitrated port asked for the index of the
    // process it picked, and of the ports that asked for an index exactly the chosen one may write.
    ghost predicate Settled(asked: seq<Option<nat>>)
      reads this, writePorts, Arbiters()
    {
      && |asked| == |writePorts|
      && (forall k :: 0 <= k < |writePorts| ==> !writePorts[k].valid)
      && (forall k :: 0 <= k < |writePorts| && writePorts[k].arbiter != null ==> PickedAsked(writePorts[k], asked[k]))
      && (forall k :: 0 <= k < |writePorts| && asked[k].Some? ==> (writePorts[k].chosen <==> Chosen(asked, Rank(), |priorities|, k)))
    }

    ghost predicate PickedAsked(p: WritePort, asked: Option<nat>)
      requires p.arbiter != null
      reads p, p.arbiter
    {
      match p.arbiter.selected
      case None => asked == None
      case Some(q) => q in p.arbiter.processes && q in p.indices && asked == Some(p.indices[q])
    }

    // No port holds a request.
    ghost predicate Idle()
      reads this, writePorts, Arbiters()
    {
      forall k :: 0 <= k < |writePorts| ==>
        !writePorts[k].valid && (writePorts[k].arbiter != null ==> writePorts[k].arbiter.requests == [])
    }

    // Both levels of arbitration.
    method OnArbitrate() returns (ghost asked: seq<Option<nat>>)
      requires Valid()
      modifies writePorts, Arbiters()
      ensures Valid() && Settled(asked) && Idle()
      ensures forall k :: 0 <= k < |writePorts| ==> WasAsked(writePorts[k], asked[k])
    {
      hide Chosen, Grouped, Rank, Chains.Distinct;
      ArbitrateWritePorts();
      asked := Asked();
      var requests := CollectRequests();
      Decide(requests);
    }

    // Process p may write index i through port k, of either kind: the port asked for i in this
    // round, and the answer p gets from the port is yes. A dedicated port that did not ask keeps the
    // answer of an earlier round, which counts for nothing.
    ghost predicate Writes(asked: seq<Option<nat>>, k: nat, p: Pid, i: nat)
      reads this, writePorts, Arbiters()
    {
      k < |writePorts| && k < |asked| && asked[k] == Some(i) && writePorts[k].CanAccess(p) && writePorts[k].MayWrite(p)
    }

    // Two processes never both may write the same index, whatever ports they use.
    lemma OneWriter(asked: seq<Option<nat>>, i: nat, j: nat, p: Pid, k: nat, q: Pid)
      requires Separate() && Settled(asked) && Writes(asked, j, p, i) && Writes(asked, k, q, i)
      ensures j == k && p == q
    {
      RanksAreRanks();
      ChosenOnce(asked, Rank(), |priorities|, j, k);
    }

    // Port k has place r in the priority list, and no port before it asked for the same index.
    ghost predicate EarliestAt(asked: seq<Option<nat>>, k: nat, r: nat)
      requires k < |asked| == |writePorts|
      reads this
    {
      && r < |priorities| && priorities[r] == writePorts[k]
      && forall j, m :: 0 <= j < r && 0 <= m < |writePorts| && priorities[j] == writePorts[m] ==> asked[m] != asked[k]
    }

    // Of the ports that asked for an index exactly the earliest in the priority list is chosen.
    lemma EarliestIsChosen(asked: seq<Option<nat>>, k: nat)
      requires Settled(asked) && k < |asked| && asked[k].Some?
      ensures writePorts[k].chosen <==> exists r :: EarliestAt(asked, k, r)
    {
      forall m: nat, j: nat | m < |writePorts| && j < |priorities| && priorities[j] == writePorts[m]
        ensures Rank()[m] <= j
      {
        Arbitration.FindBefore(priorities, j);
      }
      if writePorts[k].chosen {
        assert EarliestAt(asked, k, Rank()[k]);
      }
      if r: nat :| EarliestAt(asked, k, r) {
        forall m | 0 <= m < |asked| && asked[m] == asked[k]
          ensures Rank()[k] <= Rank()[m]
        {
          assert Rank()[m] < |priorities| ==> priorities[Rank()[m]] == writePorts[m];
        }
      }
    }

    // An index that a port asked for has a writer if and only if one of the ports that asked for
    // it has a priority.
    lemma SomeWriter(asked: seq<Option<nat>>, i: nat, k: nat)
      requires Separate() && Settled(asked) && k < |asked| && asked[k] == Some(i)
      ensures (exists j: nat, p: Pid :: Writes(asked, j, p, i))
        <==> exists j :: 0 <= j < |asked| && asked[j] == Some(i) && Rank()[j] < |priorities|
    {
      RanksAreRanks();
      ChosenForIndex(asked, Rank(), |priorities|, k);
      if j :| 0 <= j < |asked| && asked[j] == Some(i) && Chosen(asked, Rank(), |priorities|, j) {
        var port := writePorts[j];
        var p := if port.arbiter == null then port.process else port.arbiter.selected.value;
        assert Writes(asked, j, p, i);
      }
    }

    // A process of an arbitrated port writes the index it asked for itself.
    lemma WritesOwnIndex(asked: seq<Option<nat>>, k: nat, p: Pid, i: nat)
      requires Settled(asked) && Writes(asked, k, p, i) && writePorts[k].arbiter != null
      ensures p in writePorts[k].indices && writePorts[k].indices[p] == i
    {
      assert PickedAsked(writePorts[k], asked[k]);
    }

    // The processes that may use each port are fixed.
    twostate predicate SameAccess()
      reads this, writePorts, Arbiters()
    {
      && writePorts == old(writePorts)
      && forall k :: 0 <= k < |writePorts| && writePorts[k].arbiter != null ==>
           writePorts[k].arbiter.processes == old(writePorts[k].arbiter.processes)
    }

    // A process asks for an index through the k-th port.
    method Ask(k: nat, p: Pid, i: nat, cycle: nat, ghost taken: map<(nat, Pid), nat>) returns (ok: bool)
      requires Valid() && k < |writePorts| && forall j: nat :: j < |writePorts| ==> writePorts[j].HoldsOnly(j, taken)
      modifies writePorts, Arbiters()
      ensures Valid()
      ensures forall j: nat :: j < |writePorts| ==> writePorts[j].HoldsOnly(j, if ok then taken[(k, p) := i] else taken)
      ensures SameAccess() && (old(writePorts[k].CanAccess(p)) ==> ok || (k, p) in taken)
    {
      ok := writePorts[k].Ask(k, p, i, cycle, taken);
      ghost var more := if ok then taken[(k, p) := i] else taken;
      forall j: nat | j < |writePorts| && j != k
        ensures writePorts[j].Ready() && writePorts[j].HoldsOnly(j, more)
      {
        assert old(writePorts[j].Ready() && writePorts[j].HoldsOnly(j, taken));
        assert unchanged(writePorts[j]) && (writePorts[j].arbiter != null ==> unchanged(writePorts[j].arbiter));
      }
    }

    // A whole round, from the requests of the first phase to the answers of the later ones: a process
    // with access to its port has a request taken; whoever may write last asked for that index in this
    // round; no index has two writers; and each port with a request comes out of the first level
    // asking for an index, which has a writer if the port has a priority.
    method Round(asks: seq<Asking>) returns (ghost asked: seq<Option<nat>>, oks: seq<bool>)
      requires Valid() && Idle()
      modifies writePorts, Arbiters()
      ensures Valid() && Idle() && |asked| == |writePorts| && |oks| == |asks|
      ensures forall n :: 0 <= n < |asks| && asks[n].port < |writePorts| && old(writePorts[asks[n].port].CanAccess(asks[n].process)) ==>
        (asks[n].port, asks[n].process) in LastAsked(asks, oks, |asks|)
      ensures forall k: nat, p: Pid, i: nat :: Writes(asked, k, p, i) ==>
        (k, p) in LastAsked(asks, oks, |asks|) && LastAsked(asks, oks, |asks|)[(k, p)] == i
      ensures forall k: nat, p: Pid, i: nat :: Writes(asked, k, p, i) ==>
        exists m :: 0 <= m < |asks| && asks[m].port == k && asks[m].process == p && asks[m].index == i
      ensures forall i: nat, j: nat, p: Pid, k: nat, q: Pid :: Writes(asked, j, p, i) && Writes(asked, k, q, i) ==> j == k && p == q
      ensures forall k: nat, p: Pid :: k < |asked| && (k, p) in LastAsked(asks, oks, |asks|) ==> asked[k].Some?
      ensures forall k: nat :: k < |asked| && asked[k].Some? && Rank()[k] < |priorities| ==>
        exists j: nat, p: Pid :: Writes(asked, j, p, asked[k].value)
    {
      hide WritePort.HoldsOnly;
      oks := [];
      NothingHeld();
      for n := 0 to |asks|
        invariant |oks| == n && Valid() && SameAccess()
        invariant forall j: nat :: j < |writePorts| ==> writePorts[j].HoldsOnly(j, LastAsked(asks, oks, n))
        invariant forall m :: 0 <= m < n && asks[m].port < |writePorts| && old(writePorts[asks[m].port].CanAccess(asks[m].process)) ==>
          (asks[m].port, asks[m].process) in LastAsked(asks, oks, n)
      {
        var a := asks[n];
        var ok := false;
        if a.port < |writePorts| {
          ok := Ask(a.port, a.process, a.index, a.cycle, LastAsked(asks, oks, n));
        }
        LastAskedMore(asks, oks, ok, n);
        oks := oks + [ok];
      }
      asked := Arbitrated(LastAsked(asks, oks, |asks|));
      forall k: nat, p: Pid, i: nat | Writes(asked, k, p, i)
        ensures exists m :: 0 <= m < |asks| && asks[m].port == k && asks[m].process == p && asks[m].index == i
      {
        LastAskedIsAsked(asks, oks, |asks|, k, p);
      }
      forall i: nat, j: nat, p: Pid, k: nat, q: Pid | Writes(asked, j, p, i) && Writes(asked, k, q, i)
        ensures j == k && p == q
      {
        OneWriter(asked, i, j, p, k, q);
      }
      forall k: nat | k < |asked| && asked[k].Some? && Rank()[k] < |priorities|
        ensures exists j: nat, p: Pid :: Writes(asked, j, p, asked[k].value)
      {
        SomeWriter(asked, asked[k].value, k);
      }
    }

    lemma NothingHeld()
      requires Idle()
      ensures forall j: nat :: j < |writePorts| ==> writePorts[j].HoldsOnly(j, map[])
    {
    }

    // OnArbitrate, when the requests held are those in taken.
    method Arbitrated(ghost taken: map<(nat, Pid), nat>) returns (ghost asked: seq<Option<nat>>)
      requires Valid() && forall j: nat :: j < |writePorts| ==> writePorts[j].HoldsOnly(j, taken)
      modifies writePorts, Arbiters()
      ensures Valid() && Settled(asked) && Idle()
      ensures forall k: nat, p: Pid, i: nat :: Writes(asked, k, p, i) ==> (k, p) in taken && taken[(k, p)] == i
      ensures forall k: nat, p: Pid :: k < |asked| && (k, p) in taken ==> asked[k].Some?
    {
      asked := OnArbitrate();
      forall k: nat, p: Pid | k < |asked| && (k, p) in taken
        ensures asked[k].Some?
      {
        assert WasAsked(writePorts[k], asked[k]);
        assert old(writePorts[k].HoldsOnly(k, taken));
      }
      forall k: nat, p: Pid, i: nat | Writes(asked, k, p, i)
        ensures (k, p) in taken && taken[(k, p)] == i
      {
        assert WasAsked(writePorts[k], asked[k]);
        assert old(writePorts[k].HoldsOnly(k, taken));
      }
    }
  }

  lemma PickedIsChosen(asked: seq<Option<nat>>, rank: seq<nat>, ranked: nat, group: seq<nat>, i: nat, selected: Option<nat>, k: nat)
    requires |asked| == |rank| && Ranks(rank, ranked) && k in group && k < |asked|
    requires forall j: nat :: j < |asked| ==> (j in group <==> asked[j] == Some(i))
    requires forall m :: 0 <= m < |group| ==> group[m] < |asked|
    requires selected.None? ==> forall j :: j in group ==> rank[j] == ranked
    requires selected.Some? ==>
      selected.value in group && rank[selected.value] < ranked && forall j :: j in group ==> rank[selected.value] <= rank[j]
    ensures selected == Some(k) <==> Chosen(asked, rank, ranked, k)
  {
    if Chosen(asked, rank, ranked, k) {
      assert selected.Some?;
      assert rank[selected.value] == rank[k];
    }
  }
}
