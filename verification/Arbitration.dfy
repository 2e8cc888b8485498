// sim/ports.cpp, sim/ports.h: ports that let one of several processes through in a cycle, by
// priority, in turns, or both.
module Arbitration {
  import opened Arith
  import Chains
  import opened Options

  // Processes are known by their addresses.
  type Pid = nat

  // std::find, as a position: the first place, or the length when p does not occur.
  function Find<T(==)>(q: seq<T>, p: T): (i: nat)
    ensures i <= |q| && (i < |q| <==> p in q)
    ensures i < |q| ==> q[i] == p
  {
    if q == [] then 0 else if q[0] == p then 0 else 1 + Find(q[1..], p)
  }

  ghost predicate AllIn(requests: seq<Pid>, processes: seq<Pid>) {
    forall i :: 0 <= i < |requests| ==> requests[i] in processes
  }

  // ----- who should win

  // The requester earliest in the list.
  ghost predicate FirstInList(w: Pid, requests: seq<Pid>, processes: seq<Pid>) {
    w in requests && w in processes && forall r :: r in requests ==> Find(processes, w) <= Find(processes, r)
  }

  // How long a process waits when all want the port: the turns from the last winner on, a whole
  // round for the last winner itself.
  function Turns(processes: seq<Pid>, last: nat, p: Pid): (d: nat)
    requires last < |processes| && p in processes
    ensures 1 <= d <= |processes|
  {
    var i := Find(processes, p);
    if i > last then i - last else i + |processes| - last
  }

  // The requester whose turn comes first.
  ghost predicate NextInTurn(w: Pid, requests: seq<Pid>, processes: seq<Pid>, last: nat)
    requires last < |processes| && AllIn(requests, processes)
  {
    w in requests && forall r :: r in requests ==> Turns(processes, last, w) <= Turns(processes, last, r)
  }

  // Process w is at place k of the list and asks, and no one before it does.
  ghost predicate FirstAt(w: Pid, requests: seq<Pid>, processes: seq<Pid>, k: nat) {
    k < |processes| && processes[k] == w && w in requests && forall j :: 0 <= j < k ==> processes[j] !in requests
  }

  // The process e places behind the last winner, going round.
  function Behind(processes: seq<Pid>, last: nat, e: nat): Pid
    requires last < |processes|
  {
    processes[(last + e) % |processes|]
  }

  // Process w asks and comes d places behind the last winner, going round, and no one between does.
  ghost predicate NextAt(w: Pid, requests: seq<Pid>, processes: seq<Pid>, last: nat, d: nat)
    requires last < |processes|
  {
    && 1 <= d <= |processes| && w in requests && Behind(processes, last, d) == w
    && forall e :: 1 <= e < d ==> Behind(processes, last, e) !in requests
  }

  lemma FirstIsAt(w: Pid, requests: seq<Pid>, processes: seq<Pid>)
    requires FirstInList(w, requests, processes)
    ensures FirstAt(w, requests, processes, Find(processes, w))
  {
    forall j | 0 <= j < Find(processes, w)
      ensures processes[j] !in requests
    {
      FindBefore(processes, j);
    }
  }

  lemma {:induction false} FindBefore<T>(q: seq<T>, j: nat)
    requires j < |q|
    ensures Find(q, q[j]) <= j
  {
    if q[0] != q[j] {
      FindBefore(q[1..], j - 1);
    }
  }

  lemma NextIsAt(w: Pid, requests: seq<Pid>, processes: seq<Pid>, last: nat)
    requires last < |processes| && AllIn(requests, processes) && Chains.Distinct(processes)
    requires NextInTurn(w, requests, processes, last)
    ensures NextAt(w, requests, processes, last, Turns(processes, last, w))
    ensures (last + Turns(processes, last, w)) % |processes| == Find(processes, w)
  {
    TurnPlace(processes, last, w);
    hide Turns, Behind;
    forall e | 1 <= e < Turns(processes, last, w)
      ensures Behind(processes, last, e) !in requests
    {
      PlaceTurn(processes, last, e);
    }
  }

  lemma TurnPlace(processes: seq<Pid>, last: nat, p: Pid)
    requires last < |processes| && p in processes
    ensures (last + Turns(processes, last, p)) % |processes| == Find(processes, p)
    ensures Behind(processes, last, Turns(processes, last, p)) == p
  {
    ModOnce(Find(processes, p), |processes|);
  }

  lemma PlaceTurn(processes: seq<Pid>, last: nat, e: nat)
    requires last < |processes| && 1 <= e <= |processes| && Chains.Distinct(processes)
    ensures Behind(processes, last, e) in processes && Turns(processes, last, Behind(processes, last, e)) == e
  {
    var n := |processes|;
    if last + e < n {
      ModOnce(last + e, n);
    } else {
      ModOnce(last + e - n, n);
    }
  }

  lemma TurnsIsDistance(processes: seq<Pid>, last: nat, p: Pid)
    requires last < |processes| && p in processes
    ensures var d := (Find(processes, p) + |processes| - last) % |processes|;
      Turns(processes, last, p) == (if d == 0 then |processes| else d) && (last + d) % |processes| == Find(processes, p)
  {
    Distance(|processes|, last, Find(processes, p));
  }

  lemma Distance(n: nat, last: nat, i: nat)
    requires last < n && i < n
    ensures var d := (i + n - last) % n;
      d == (if i >= last then i - last else i + n - last) && (last + d) % n == i
  {
    ModOnce(i, n);
    if i >= last {
      ModOnce(i - last, n);
      assert i + n - last == (i - last) + n;
    } else {
      ModOnce(i + n - last, n);
      assert last + (i + n - last) == i + n;
    }
  }

  lemma ModOnce(k: nat, n: nat)
    requires k < n
    ensures (k + n) % n == k && k % n == k
  {
    ModUnique(k + n, 1, k, n);
    ModUnique(k, 0, k, n);
  }

  lemma TurnsApart(processes: seq<Pid>, last: nat, p: Pid, q: Pid)
    requires last < |processes| && p in processes && q in processes && p != q
    ensures Turns(processes, last, p) != Turns(processes, last, q)
  {
  }

  // A requester that loses moves up.
  lemma LoserMovesUp(processes: seq<Pid>, last: nat, requests: seq<Pid>, w: Pid, p: Pid)
    requires last < |processes| && AllIn(requests, processes) && NextInTurn(w, requests, processes, last)
    requires p in requests && p != w
    ensures Turns(processes, Find(processes, w), p) < Turns(processes, last, p)
  {
    TurnsApart(processes, last, p, w);
  }

  // ----- rounds of a cyclic port, or of one that lets priority processes go first

  ghost predicate Contested(requests: seq<Pid>, priority: seq<Pid>) {
    exists r :: r in requests && r in priority
  }

  ghost predicate Round(priority: seq<Pid>, cyclic: seq<Pid>, requests: seq<Pid>, winner: Pid, last: nat, last': nat) {
    if Contested(requests, priority) then last' == last
    else
      && last < |cyclic| && AllIn(requests, cyclic) && NextInTurn(winner, requests, cyclic, last)
      && last' == Find(cyclic, winner)
  }

  ghost predicate Rounds(priority: seq<Pid>, cyclic: seq<Pid>, requests: seq<seq<Pid>>, winners: seq<Pid>, lasts: seq<nat>) {
    && |winners| == |requests| && |lasts| == |requests| + 1 && lasts[0] < |cyclic|
    && (forall i :: 0 <= i < |requests| ==> Round(priority, cyclic, requests[i], winners[i], lasts[i], lasts[i + 1]))
  }

  // How many of the first k rounds no priority process took part in.
  ghost function QuietRounds(priority: seq<Pid>, requests: seq<seq<Pid>>, k: nat): nat
    requires k <= |requests|
  {
    if k == 0 then 0
    else QuietRounds(priority, requests, k - 1) + if Contested(requests[k - 1], priority) then 0 else 1
  }

  lemma {:induction false} WaitsUntil(priority: seq<Pid>, cyclic: seq<Pid>, requests: seq<seq<Pid>>, winners: seq<Pid>, lasts: seq<nat>, p: Pid, k: nat)
    requires Rounds(priority, cyclic, requests, winners, lasts) && p in cyclic && k <= |requests|
    requires forall i :: 0 <= i < k ==> p in requests[i] && winners[i] != p
    ensures lasts[k] < |cyclic| && Turns(cyclic, lasts[k], p) + QuietRounds(priority, requests, k) <= |cyclic|
  {
    if k > 0 {
      WaitsUntil(priority, cyclic, requests, winners, lasts, p, k - 1);
      assert Round(priority, cyclic, requests[k - 1], winners[k - 1], lasts[k - 1], lasts[k]);
      if !Contested(requests[k - 1], priority) {
        LoserMovesUp(cyclic, lasts[k - 1], requests[k - 1], winners[k - 1], p);
      }
    }
  }

  // Whoever requests in every round wins within as many quiet rounds as there are processes.
  lemma BoundedWaiting(priority: seq<Pid>, cyclic: seq<Pid>, requests: seq<seq<Pid>>, winners: seq<Pid>, lasts: seq<nat>, p: Pid, k: nat)
    requires Rounds(priority, cyclic, requests, winners, lasts) && p in cyclic && k <= |requests|
    requires forall i :: 0 <= i < k ==> p in requests[i]
    requires QuietRounds(priority, requests, k) >= |cyclic|
    ensures exists i :: 0 <= i < k && winners[i] == p
  {
    if forall i :: 0 <= i < k ==> winners[i] != p {
      WaitsUntil(priority, cyclic, requests, winners, lasts, p, k);
    }
  }

  // In a port that knows no priority every round is quiet.
  lemma {:induction false} AllQuiet(requests: seq<seq<Pid>>, k: nat)
    requires k <= |requests|
    ensures QuietRounds([], requests, k) == k
  {
    if k > 0 {
      AllQuiet(requests, k - 1);
    }
  }

  // There, whoever keeps asking wins within as many rounds as there are processes.
  lemma CyclicWaiting(cyclic: seq<Pid>, requests: seq<seq<Pid>>, winners: seq<Pid>, lasts: seq<nat>, p: Pid)
    requires Rounds([], cyclic, requests, winners, lasts) && p in cyclic && |requests| >= |cyclic|
    requires forall i :: 0 <= i < |cyclic| ==> p in requests[i]
    ensures exists i :: 0 <= i < |cyclic| && winners[i] == p
  {
    AllQuiet(requests, |cyclic|);
    BoundedWaiting([], cyclic, requests, winners, lasts, p, |cyclic|);
  }

  // ----- the ports

  // Looks for the requester with the lowest position, among those that have one.
  method PickFirst(processes: seq<Pid>, requests: seq<Pid>) returns (winner: Option<Pid>)
    ensures winner.None? ==> forall r :: r in requests ==> r !in processes
    ensures winner.Some? ==> FirstInList(winner.value, requests, processes)
  {
    winner := None;
    var min := |processes|;
    for i := 0 to |requests|
      invariant min <= |processes| && (winner.None? <==> min == |processes|)
      invariant winner.Some? ==> winner.value in requests && winner.value in processes && min == Find(processes, winner.value)
      invariant forall j :: 0 <= j < i ==> min <= Find(processes, requests[j])
    {
      var priority := Find(processes, requests[i]);
      if priority < min {
        min := priority;
        winner := Some(requests[i]);
      }
    }
  }

  // Looks for the requester closest behind the last winner, leaving out the last winner itself.
  method PickNext(processes: seq<Pid>, requests: seq<Pid>, last: nat) returns (winner: Pid, last': nat)
    requires last < |processes| && Chains.Distinct(processes) && AllIn(requests, processes)
    requires Chains.Distinct(requests) && |requests| > 1
    ensures NextInTurn(winner, requests, processes, last) && last' == Find(processes, winner)
  {
    hide Find, Turns;
    var n := |processes|;
    var min := n;
    winner := 0;
    for i := 0 to |requests|
      invariant 1 <= min <= n
      invariant min < n ==> winner in requests && Turns(processes, last, winner) == min
      invariant forall j :: 0 <= j < i ==> min <= Turns(processes, last, requests[j])
    {
      var d := (Find(processes, requests[i]) + n - last) % n;
      TurnsIsDistance(processes, last, requests[i]);
      if d != 0 && d < min {
        min := d;
        winner := requests[i];
      }
    }
    TurnsApart(processes, last, requests[0], requests[1]);
    TurnsIsDistance(processes, last, winner);
    last' := (last + min) % n;
  }

  // The state of a port and of the policies built on it: the processes served by priority or in
  // turns, those served in turns only when no other asks, and what they asked in this cycle.
  class Port {
    var processes: seq<Pid>
    var cyclicProcesses: seq<Pid>
    var requests: seq<Pid>
    var lastRequest: Option<nat>
    var lastSelected: nat
    var selected: Option<Pid>
    var busyCycles: nat

    ghost predicate Valid()
      reads this
    {
      && Chains.Distinct(processes) && Chains.Distinct(cyclicProcesses) && Chains.Distinct(requests)
      && (forall p :: p in processes ==> p !in cyclicProcesses)
      && AllIn(requests, processes + cyclicProcesses)
    }

    constructor ()
      ensures Valid() && processes == [] && cyclicProcesses == [] && requests == [] && lastSelected == 0
    {
      processes, cyclicProcesses, requests, lastRequest := [], [], [], None;
      lastSelected, selected, busyCycles := 0, None, 0;
    }

    method AddProcess(p: Pid)
      requires Valid() && p !in processes && p !in cyclicProcesses
      modifies this`processes
      ensures Valid() && processes == old(processes) + [p]
    {
      processes := processes + [p];
      assert processes + cyclicProcesses == old(processes) + [p] + cyclicProcesses;
      assert forall r :: r in old(processes) + cyclicProcesses ==> r in processes + cyclicProcesses;
    }

    method AddCyclicProcess(p: Pid)
      requires Valid() && p !in processes && p !in cyclicProcesses
      modifies this`cyclicProcesses
      ensures Valid() && cyclicProcesses == old(cyclicProcesses) + [p]
    {
      cyclicProcesses := cyclicProcesses + [p];
      assert forall r :: r in processes + old(cyclicProcesses) ==> r in processes + cyclicProcesses;
    }

    // A process asks once in a cycle; it may ask again, in a later cycle, before arbitration.
    method AddRequest(p: Pid, cycle: nat)
      requires Valid() && p in processes + cyclicProcesses
      requires p in requests ==> lastRequest != Some(cycle)
      modifies this`requests, this`lastRequest
      ensures Valid() && requests == if p in old(requests) then old(requests) else old(requests) + [p]
    {
      if p in requests {
        return;
      }
      requests := requests + [p];
      lastRequest := Some(cycle);
    }

    // The requests of this cycle are answered.
    method Grant(winner: Pid)
      requires Valid() && winner in requests
      modifies this`requests, this`selected, this`busyCycles
      ensures Valid() && requests == [] && selected == Some(winner) && busyCycles == old(busyCycles) + 1
    {
      selected := Some(winner);
      requests := [];
      busyCycles := busyCycles + 1;
    }

    method ArbitratePriority()
      requires Valid() && cyclicProcesses == []
      modifies this`requests, this`selected, this`busyCycles
      ensures Valid() && requests == []
      ensures selected.None? <==> old(requests) == []
      ensures selected.Some? ==> FirstInList(selected.value, old(requests), processes)
      ensures selected.Some? ==> exists k :: FirstAt(selected.value, old(requests), processes, k)
    {
      selected := None;
      if requests == [] {
        return;
      }
      assert processes + cyclicProcesses == processes;
      if |requests| == 1 {
        Grant(requests[0]);
      } else {
        var winner := PickFirst(processes, requests);
        assert requests[0] in processes;
        Grant(winner.value);
      }
      FirstIsAt(selected.value, old(requests), processes);
    }

    method ArbitrateCyclic()
      requires Valid() && cyclicProcesses == [] && lastSelected < |processes|
      modifies this`requests, this`selected, this`busyCycles, this`lastSelected
      ensures Valid() && requests == [] && lastSelected < |processes|
      ensures selected.None? <==> old(requests) == []
      ensures if selected.Some? then Round([], processes, old(requests), selected.value, old(lastSelected), lastSelected)
        else lastSelected == old(lastSelected)
      ensures selected.Some? ==>
        && processes[lastSelected] == selected.value
        && exists d :: NextAt(selected.value, old(requests), processes, old(lastSelected), d)
    {
      selected := None;
      assert processes + cyclicProcesses == processes;
      if requests == [] {
        return;
      }
      var winner;
      if |requests| == 1 {
        winner := requests[0];
        lastSelected := Find(processes, winner);
      } else {
        winner, lastSelected := PickNext(processes, requests, lastSelected);
      }
      NextIsAt(winner, requests, processes, old(lastSelected));
      Grant(winner);
    }

    // Priority processes first; the others take turns among themselves.
    method ArbitratePriorityCyclic()
      requires Valid() && (cyclicProcesses != [] ==> lastSelected < |cyclicProcesses|)
      modifies this`requests, this`selected, this`busyCycles, this`lastSelected
      ensures Valid() && requests == [] && (cyclicProcesses != [] ==> lastSelected < |cyclicProcesses|)
      ensures selected.None? <==> old(requests) == []
      ensures if selected.Some? then Round(processes, cyclicProcesses, old(requests), selected.value, old(lastSelected), lastSelected)
        else lastSelected == old(lastSelected)
      ensures Contested(old(requests), processes) ==> FirstInList(selected.value, old(requests), processes)
      ensures selected.Some? ==>
        if exists r :: r in old(requests) && r in processes then
          lastSelected == old(lastSelected) && exists k :: FirstAt(selected.value, old(requests), processes, k)
        else
          && cyclicProcesses != [] && cyclicProcesses[lastSelected] == selected.value
          && exists d :: NextAt(selected.value, old(requests), cyclicProcesses, old(lastSelected), d)
    {
      selected := None;
      if requests == [] {
        return;
      }
      assert requests[0] in processes + cyclicProcesses;
      if |requests| == 1 {
        var i := Find(cyclicProcesses, requests[0]);
        if i < |cyclicProcesses| {
          lastSelected := i;
        }
        Grant(requests[0]);
      } else {
        var winner := PickFirst(processes, requests);
        if winner.None? {
          assert AllIn(requests, cyclicProcesses);
          var next;
          next, lastSelected := PickNext(cyclicProcesses, requests, lastSelected);
          Grant(next);
        } else {
          Grant(winner.value);
        }
      }
      if Contested(old(requests), processes) {
        FirstIsAt(selected.value, old(requests), processes);
      } else {
        NextIsAt(selected.value, old(requests), cyclicProcesses, old(lastSelected));
      }
    }
  }

  // ----- runs of a port

  // The requests that one round hears from processes of the port, each once.
  function Heard(ask: seq<Pid>, n: nat, all: seq<Pid>): (requests: seq<Pid>)
    requires n <= |ask|
    ensures forall p :: p in requests <==> p in ask[..n] && p in all
  {
    if n == 0 then []
    else
      assert ask[..n] == ask[..n - 1] + [ask[n - 1]];
      var before := Heard(ask, n - 1, all);
      if ask[n - 1] in all && ask[n - 1] !in before then before + [ask[n - 1]] else before
  }

  // Those of the first n rounds of a run; a round without a request is none.
  ghost function HeardRounds(asks: seq<seq<Pid>>, n: nat, all: seq<Pid>): seq<seq<Pid>>
    requires n <= |asks|
  {
    if n == 0 then []
    else
      var heard := Heard(asks[n - 1], |asks[n - 1]|, all);
      HeardRounds(asks, n - 1, all) + if heard == [] then [] else [heard]
  }

  // A process that asks in every round is heard in every one.
  lemma {:induction false} AlwaysHeard(asks: seq<seq<Pid>>, n: nat, all: seq<Pid>, p: Pid)
    requires n <= |asks| && p in all && forall i :: 0 <= i < n ==> p in asks[i]
    ensures |HeardRounds(asks, n, all)| == n && forall i :: 0 <= i < n ==> p in HeardRounds(asks, n, all)[i]
  {
    if n > 0 {
      AlwaysHeard(asks, n - 1, all, p);
      assert asks[n - 1][..|asks[n - 1]|] == asks[n - 1];
    }
  }

  lemma NoRounds(priority: seq<Pid>, cyclic: seq<Pid>, last: nat)
    requires last < |cyclic|
    ensures Rounds(priority, cyclic, [], [], [last])
  {
  }

  lemma RoundsMore(priority: seq<Pid>, cyclic: seq<Pid>, requests: seq<seq<Pid>>, winners: seq<Pid>, lasts: seq<nat>,
                   heard: seq<Pid>, winner: Pid, last: nat)
    requires Rounds(priority, cyclic, requests, winners, lasts) && Round(priority, cyclic, heard, winner, lasts[|requests|], last)
    ensures Rounds(priority, cyclic, requests + [heard], winners + [winner], lasts + [last])
  {
    hide Round;
  }

  // Puts the requests of a round to a port.
  method RequestAll(port: Port, ask: seq<Pid>, cycle: nat)
    requires port.Valid() && port.requests == []
    modifies port`requests, port`lastRequest
    ensures port.Valid() && port.requests == Heard(ask, |ask|, port.processes + port.cyclicProcesses)
  {
    for n := 0 to |ask|
      invariant port.Valid() && port.requests == Heard(ask, n, port.processes + port.cyclicProcesses)
    {
      if ask[n] in port.processes + port.cyclicProcesses && ask[n] !in port.requests {
        port.AddRequest(ask[n], cycle);
      }
    }
  }

  // Any run of a port with priority and cyclic processes. No process that asks in every round waits
  // for more rounds without priority requests than there are cyclic processes.
  method RunPort(port: Port, asks: seq<seq<Pid>>) returns (ghost requests: seq<seq<Pid>>, winners: seq<Pid>, ghost lasts: seq<nat>)
    requires port.Valid() && port.requests == [] && port.lastSelected < |port.cyclicProcesses|
    modifies port`requests, port`lastRequest, port`selected, port`busyCycles, port`lastSelected
    ensures port.Valid() && port.requests == []
    ensures requests == HeardRounds(asks, |asks|, port.processes + port.cyclicProcesses)
    ensures Rounds(port.processes, port.cyclicProcesses, requests, winners, lasts) && |winners| == |requests|
    ensures forall i :: 0 <= i < |winners| && Contested(requests[i], port.processes) ==>
      FirstInList(winners[i], requests[i], port.processes)
    ensures QuietRounds(port.processes, requests, |requests|) >= |port.cyclicProcesses| ==>
      forall p :: p in port.cyclicProcesses && (forall i :: 0 <= i < |asks| ==> p in asks[i]) ==> p in winners
  {
    hide Round, Rounds, Contested, QuietRounds, Find, Turns;
    NoRounds(port.processes, port.cyclicProcesses, port.lastSelected);
    requests, winners, lasts := [], [], [port.lastSelected];
    for n := 0 to |asks|
      invariant port.Valid() && port.requests == [] && port.lastSelected < |port.cyclicProcesses|
      invariant requests == HeardRounds(asks, n, port.processes + port.cyclicProcesses)
      invariant Rounds(port.processes, port.cyclicProcesses, requests, winners, lasts)
      invariant |winners| == |requests| && |lasts| == |requests| + 1 && lasts[|requests|] == port.lastSelected
      invariant forall i :: 0 <= i < |winners| && Contested(requests[i], port.processes) ==>
        FirstInList(winners[i], requests[i], port.processes)
    {
      RequestAll(port, asks[n], n);
      ghost var heard := port.requests;
      port.ArbitratePriorityCyclic();
      if port.selected.Some? {
        RoundsMore(port.processes, port.cyclicProcesses, requests, winners, lasts, heard, port.selected.value, port.lastSelected);
        requests := requests + [heard];
        winners := winners + [port.selected.value];
        lasts := lasts + [port.lastSelected];
      }
    }
    if QuietRounds(port.processes, requests, |requests|) >= |port.cyclicProcesses| {
      forall p | p in port.cyclicProcesses && (forall i :: 0 <= i < |asks| ==> p in asks[i])
        ensures p in winners
      {
        AlwaysHeard(asks, |asks|, port.processes + port.cyclicProcesses, p);
        BoundedWaiting(port.processes, port.cyclicProcesses, requests, winners, lasts, p, |requests|);
      }
    }
  }
}
