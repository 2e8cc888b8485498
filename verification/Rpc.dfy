// arch/dev/RPC.cpp: the RPC device, a pipeline of four queues between an I/O network and a
// service. Every handler is one step; a run is any interleaving of them.
module Rpc {
  import opened Bits
  import opened Options
  import opened RpcChunks
  import opened RpcFetch

  datatype Request = Request(
    procedure: nat, extra1: nat, extra2: nat, device: nat,
    areas: Areas, res1: nat, res2: nat, tag: nat, channel: nat)

  datatype ProcessRequest = ProcessRequest(
    procedure: nat, extra1: nat, extra2: nat, device: nat,
    res1: nat, res2: nat, tag: nat, channel: nat, data1: seq<u8>, data2: seq<u8>)

  datatype Response = Response(
    device: nat, res1: nat, res2: nat, channel: nat, tag: nat, data1: seq<u8>, data2: seq<u8>)

  datatype Notification = Notification(device: nat, channel: nat, tag: nat)

  datatype FetchState = Reading1 | Reading2 | FetchFinalize
  datatype WritebackState = Writing1 | Writing2 | Barrier | WriteFinalize

  // What the writeback of one response does on the bus.
  datatype BusEvent = Wrote(device: nat, addr: nat, data: seq<u8>) | BarrierSent(device: nat) | BarrierAnswered

  // The service gets the procedure, the limits of both results, both arguments and the two extra
  // arguments, and gives both results.
  type Service = (nat, nat, nat, seq<u8>, seq<u8>, nat, nat) -> (seq<u8>, seq<u8>)

  function MemRange(mem: nat -> u8, base: nat, size: nat): seq<u8> {
    seq(size, i requires 0 <= i => mem(base + i))
  }

  // ----- what the device owes for one request

  // A request and the stretch of memory's history, from its reaching the front of the queue to its
  // being forwarded, in which its arguments were fetched; and what the second buffer held at first.
  datatype Job = Job(req: Request, from: nat, to: nat, stale: seq<u8>)

  function Seen(history: seq<nat -> u8>, from: nat, to: nat): seq<nat -> u8> {
    if from <= to <= |history| then history[from..to] else []
  }

  // Each argument byte is one that memory held at its address while the request was fetched, except
  // that a lost byte is what the buffer held before.
  ghost predicate ArgumentsFor(job: Job, data1: seq<u8>, data2: seq<u8>, history: seq<nat -> u8>, line: nat)
    requires line > 0
  {
    var ar, seen := job.req.areas, Seen(history, job.from, job.to);
    && job.from < job.to <= |history|
    && |data1| == ar.size1 && |data2| == ar.size2 <= |job.stale|
    && (forall i :: 0 <= i < ar.size1 ==> Held(seen, ar.base1 + i, data1[i]))
    && (forall i :: 0 <= i < ar.size2 ==>
          if Lost(ar, ar.base2 + i, line) then data2[i] == job.stale[i] else Held(seen, ar.base2 + i, data2[i]))
  }

  // What the service makes of a request with these arguments.
  function Answer(req: Request, data1: seq<u8>, data2: seq<u8>, service: Service, cfg: Config): Response {
    var r := service(req.procedure, cfg.maxArg1, cfg.maxArg2, data1, data2, req.extra1, req.extra2);
    Response(req.device, req.res1, req.res2, req.channel, req.tag, r.0, r.1)
  }

  function NotificationOf(req: Request): Notification {
    Notification(req.device, req.channel, req.tag)
  }

  predicate Wanted1(res: Response) {
    |res.data1| != 0 && res.res1 != 0
  }

  predicate Wanted2(res: Response) {
    |res.data2| != 0 && res.res2 != 0
  }

  // The writes that carry data from offset off on.
  function Writes(device: nat, base: nat, data: seq<u8>, off: nat, line: nat): seq<BusEvent>
    requires off <= |data| && line > 0
    decreases |data| - off
  {
    if off == |data| then []
    else
      var n := TransferSize(|data|, base, off, line);
      [Wrote(device, base + off, data[off..off + n])] + Writes(device, base, data, off + n, line)
  }

  // Consecutive writes, each inside one line, that carry exactly data[off..] to base + off and up.
  ghost predicate Carries(events: seq<BusEvent>, device: nat, base: nat, data: seq<u8>, off: nat, line: nat)
    requires line > 0
  {
    if events == [] then off == |data|
    else
      && events[0].Wrote? && events[0].device == device && events[0].addr == base + off
      && 0 < |events[0].data| && (base + off) % line + |events[0].data| <= line
      && off + |events[0].data| <= |data| && events[0].data == data[off..off + |events[0].data|]
      && Carries(events[1..], device, base, data, off + |events[0].data|, line)
  }

  lemma {:induction false} WritesCarry(device: nat, base: nat, data: seq<u8>, off: nat, line: nat)
    requires off <= |data| && line > 0
    ensures Carries(Writes(device, base, data, off, line), device, base, data, off, line)
    decreases |data| - off
  {
    if off < |data| {
      var n := TransferSize(|data|, base, off, line);
      WritesCarry(device, base, data, off + n, line);
      assert Writes(device, base, data, off, line)[1..] == Writes(device, base, data, off + n, line);
    }
  }

  // Memory after bus events.
  ghost function MemAfter(mem: nat -> u8, events: seq<BusEvent>): nat -> u8 {
    if events == [] then mem
    else MemAfter(if events[0].Wrote? then Overlaid(mem, events[0].addr, events[0].data) else mem, events[1..])
  }

  function Overlaid(mem: nat -> u8, addr: nat, data: seq<u8>): nat -> u8 {
    (a: nat) => if addr <= a < addr + |data| then data[a - addr] else mem(a)
  }

  // Writes that carry a result leave exactly that result in its area and touch nothing else.
  lemma {:induction false} CarriedToMemory(mem: nat -> u8, events: seq<BusEvent>, device: nat, base: nat, data: seq<u8>,
                                           off: nat, line: nat)
    requires line > 0 && off <= |data| && Carries(events, device, base, data, off, line)
    ensures forall a: nat :: MemAfter(mem, events)(a) == if base + off <= a < base + |data| then data[a - base] else mem(a)
    decreases |events|
  {
    if events != [] {
      var n := |events[0].data|;
      var mem' := Overlaid(mem, events[0].addr, events[0].data);
      CarriedToMemory(mem', events[1..], device, base, data, off + n, line);
      assert forall a: nat :: base + off <= a < base + off + n ==> mem'(a) == data[a - base];
    }
  }

  function Closing(device: nat): seq<BusEvent> {
    [BarrierSent(device), BarrierAnswered]
  }

  // All bus events of one response: both result areas, then a barrier and its answer; nothing at
  // all if there is no result to write.
  function BusWork(res: Response, line: nat): seq<BusEvent>
    requires line > 0
  {
    (if Wanted1(res) then Writes(res.device, res.res1, res.data1, 0, line) else [])
    + (if Wanted2(res) then Writes(res.device, res.res2, res.data2, 0, line) else [])
    + (if Wanted1(res) || Wanted2(res) then Closing(res.device) else [])
  }

  // A response with a result ends with one barrier and its answer, after all of its writes; only
  // one without a result goes without.
  lemma BarrierComesLast(res: Response, line: nat)
    requires line > 0
    ensures var evs := BusWork(res, line);
      if Wanted1(res) || Wanted2(res)
      then |evs| >= 2 && evs[|evs| - 2..] == [BarrierSent(res.device), BarrierAnswered]
           && forall k :: 0 <= k < |evs| - 2 ==> evs[k].Wrote?
      else evs == []
  {
    WritesAreWrites(res.device, res.res1, res.data1, 0, line);
    WritesAreWrites(res.device, res.res2, res.data2, 0, line);
  }

  lemma {:induction false} WritesAreWrites(device: nat, base: nat, data: seq<u8>, off: nat, line: nat)
    requires off <= |data| && line > 0
    ensures forall k :: 0 <= k < |Writes(device, base, data, off, line)| ==> Writes(device, base, data, off, line)[k].Wrote?
    decreases |data| - off
  {
    if off < |data| {
      WritesAreWrites(device, base, data, off + TransferSize(|data|, base, off, line), line);
    }
  }

  predicate OffsetOk(res: Response, state: WritebackState, off: nat) {
    && (state.Writing1? && Wanted1(res) ==> off <= |res.data1|)
    && ((state.Writing1? && !Wanted1(res)) || state.Writing2? ==> off <= |res.data2|)
  }

  // The bus events still to come for the response at the front, from the writeback registers.
  function BusWorkLeft(res: Response, state: WritebackState, off: nat, answerDue: bool, line: nat): seq<BusEvent>
    requires line > 0 && OffsetOk(res, state, off)
  {
    match state
    case Writing1 =>
      if Wanted1(res) then
        Writes(res.device, res.res1, res.data1, off, line)
        + (if Wanted2(res) then Writes(res.device, res.res2, res.data2, 0, line) else []) + Closing(res.device)
      else if Wanted2(res) then Writes(res.device, res.res2, res.data2, off, line) + Closing(res.device)
      else []
    case Writing2 => Writes(res.device, res.res2, res.data2, off, line) + Closing(res.device)
    case Barrier => Closing(res.device)
    case WriteFinalize => if answerDue then [BarrierAnswered] else []
  }

  // Reads still to be asked for by the fetch registers, and all reads of a request.
  function AllReads(ar: Areas, line: nat): seq<Chunk>
    requires line > 0
  {
    Chunks(ar.base1, ar.size1, 0, line) + Chunks(ar.base2, ar.size2, 0, line)
  }

  function ReadsLeft(ar: Areas, state: FetchState, off: nat, line: nat): seq<Chunk>
    requires line > 0
    requires state.Reading1? ==> off <= ar.size1
    requires state.Reading2? ==> off <= ar.size2
  {
    match state
    case Reading1 => Chunks(ar.base1, ar.size1, off, line) + Chunks(ar.base2, ar.size2, 0, line)
    case Reading2 => Chunks(ar.base2, ar.size2, off, line)
    case FetchFinalize => []
  }

  ghost predicate ReadyFor(job: Job, p: ProcessRequest, history: seq<nat -> u8>, line: nat)
    requires line > 0
  {
    var req := job.req;
    && p.procedure == req.procedure && p.extra1 == req.extra1 && p.extra2 == req.extra2 && p.device == req.device
    && p.res1 == req.res1 && p.res2 == req.res2 && p.tag == req.tag && p.channel == req.channel
    && ArgumentsFor(job, p.data1, p.data2, history, line)
  }

  ghost predicate ResponseFor(job: Job, res: Response, history: seq<nat -> u8>, service: Service, cfg: Config)
    requires cfg.line > 0
  {
    exists d1, d2 :: ArgumentsFor(job, d1, d2, history, cfg.line) && res == Answer(job.req, d1, d2, service, cfg)
  }

  // The bus work done before a request's notification was queued.
  ghost predicate WorkFor(job: Job, work: seq<BusEvent>, history: seq<nat -> u8>, service: Service, cfg: Config)
    requires cfg.line > 0
  {
    exists res :: ResponseFor(job, res, history, service, cfg) && work == BusWork(res, cfg.line)
  }

  // The argument areas did not change while the request was fetched.
  ghost predicate Steady(job: Job, mem: nat -> u8, history: seq<nat -> u8>) {
    var ar, seen := job.req.areas, Seen(history, job.from, job.to);
    forall k, a: nat :: 0 <= k < |seen| && (InArea1(ar, a) || InArea2(ar, a)) ==> seen[k](a) == mem(a)
  }

  // Then the service got the arguments as they are in memory, and its results are what was written.
  lemma SteadyArguments(job: Job, data1: seq<u8>, data2: seq<u8>, mem: nat -> u8, history: seq<nat -> u8>, line: nat)
    requires line > 0 && ArgumentsFor(job, data1, data2, history, line) && Steady(job, mem, history)
    requires var ar := job.req.areas; !Lost(ar, ar.base1 + ar.size1, line)
    ensures var ar := job.req.areas; data1 == MemRange(mem, ar.base1, ar.size1) && data2 == MemRange(mem, ar.base2, ar.size2)
  {
    var ar := job.req.areas;
    LostExactly(ar, line);
    hide Lost, Seen, Held, Steady;
    forall i | 0 <= i < ar.size1
      ensures data1[i] == mem(ar.base1 + i)
    {
      SteadyHeld(job, mem, history, ar.base1 + i, data1[i]);
    }
    forall i | 0 <= i < ar.size2
      ensures data2[i] == mem(ar.base2 + i)
    {
      assert !Lost(ar, ar.base2 + i, line);
      SteadyHeld(job, mem, history, ar.base2 + i, data2[i]);
    }
  }

  lemma SteadyHeld(job: Job, mem: nat -> u8, history: seq<nat -> u8>, a: nat, v: u8)
    requires Steady(job, mem, history) && Held(Seen(history, job.from, job.to), a, v)
    requires InArea1(job.req.areas, a) || InArea2(job.req.areas, a)
    ensures v == mem(a)
  {
    hide Seen;
  }

  lemma SteadyWork(job: Job, work: seq<BusEvent>, mem: nat -> u8, history: seq<nat -> u8>, service: Service, cfg: Config)
    requires cfg.line > 0 && WorkFor(job, work, history, service, cfg) && Steady(job, mem, history)
    requires var ar := job.req.areas; !Lost(ar, ar.base1 + ar.size1, cfg.line)
    ensures var ar := job.req.areas;
      work == BusWork(Answer(job.req, MemRange(mem, ar.base1, ar.size1), MemRange(mem, ar.base2, ar.size2), service, cfg), cfg.line)
  {
    hide ArgumentsFor, Steady, Lost, BusWork, Answer;
    var res :| ResponseFor(job, res, history, service, cfg) && work == BusWork(res, cfg.line);
    var d1, d2 :| ArgumentsFor(job, d1, d2, history, cfg.line) && res == Answer(job.req, d1, d2, service, cfg);
    SteadyArguments(job, d1, d2, mem, history, cfg.line);
  }

  function Notifications(reqs: seq<Request>): seq<Notification> {
    seq(|reqs|, i requires 0 <= i < |reqs| => NotificationOf(reqs[i]))
  }

  // ----- registers, and what the proofs remember beside them

  // The activation count is the number of reasons the kernel has to run the process.
  datatype Fetch = Fetch(state: FetchState, off: nat, pending: nat, activations: int)
  datatype Writeback = Writeback(state: WritebackState, off: nat, activations: int)

  // Transfers asked for so far for the front request, those not answered yet, the second buffer and
  // the length of memory's history as they were when the request reached the front.
  datatype FetchLog = FetchLog(issued: seq<Chunk>, outstanding: seq<Chunk>, stale: seq<u8>, from: nat)

  // Barriers not answered yet, the bus events so far for the front response, and the moments in
  // memory's history at which the first of its writes were taken.
  datatype WriteLog = WriteLog(barriersOut: nat, work: seq<BusEvent>, moments: seq<nat>)

  // Where each accepted request is, in order: notified, awaiting its notification, written back,
  // served, or still to be fetched; the notifications sent; and the bus work of the first two. Also
  // the moments in memory's history at which each was accepted and at which its writes were taken.
  datatype Ledger = Ledger(accepted: seq<Request>, acceptedAt: seq<nat>,
                           doneJobs: seq<Job>, notifJobs: seq<Job>, completedJobs: seq<Job>, readyJobs: seq<Job>,
                           sent: seq<Notification>, works: seq<seq<BusEvent>>, taken: seq<seq<nat>>)

  function Requests(jobs: seq<Job>): seq<Request> {
    seq(|jobs|, i requires 0 <= i < |jobs| => jobs[i].req)
  }

  datatype Config = Config(line: nat, maxArg1: nat, maxArg2: nat,
                           incomingCap: nat, readyCap: nat, completedCap: nat, notificationCap: nat)

  // Both sizes are clipped with the limit of the first buffer, cut down to 32 bits.
  function Limit(cfg: Config): nat {
    cfg.maxArg1 % U32_SIZE
  }

  // The second buffer can hold what fits the first; see RpcDevice.SecondSizeFits.
  ghost predicate ConfigOk(cfg: Config) {
    cfg.line > 0 && Limit(cfg) <= cfg.maxArg2
  }

  ghost predicate Sized(cfg: Config, req: Request) {
    req.areas.size1 <= Limit(cfg) && req.areas.size2 <= Limit(cfg)
  }

  ghost predicate AllSized(cfg: Config, reqs: seq<Request>) {
    forall k :: 0 <= k < |reqs| ==> Sized(cfg, reqs[k])
  }

  // ----- the invariant of the fetch stage

  // How far the fetch registers say the front request has got.
  function Got1(ar: Areas, f: Fetch): nat {
    if f.state.Reading1? then f.off else ar.size1
  }

  function Got2(ar: Areas, f: Fetch): nat {
    match f.state
    case Reading1 => 0
    case Reading2 => f.off
    case FetchFinalize => ar.size2
  }

  ghost predicate FetchRegisters(ar: Areas, f: Fetch, line: nat)
    requires line > 0
  {
    && (f.state.Reading1? ==> f.off <= ar.size1 && (f.off == 0 || (f.off < ar.size1 && (ar.base1 + f.off) % line == 0)))
    && (f.state.Reading2? ==> f.off <= ar.size2 && (f.off == 0 || (f.off < ar.size2 && (ar.base2 + f.off) % line == 0)))
  }

  ghost predicate FetchFront(ar: Areas, f: Fetch, log: FetchLog, line: nat, seen: seq<nat -> u8>, d1: seq<u8>, d2: seq<u8>)
    requires line > 0
  {
    && FetchRegisters(ar, f, line)
    && log.issued + ReadsLeft(ar, f.state, f.off, line) == AllReads(ar, line)
    && Fetched(ar, seen, line, Got1(ar, f), Got2(ar, f), log.outstanding, d1, d2, log.stale)
  }

  // Runnable iff there is a request and it is not waiting for its last reads.
  ghost predicate FetchAwake(incoming: seq<Request>, f: Fetch) {
    f.activations == if incoming != [] && !(f.state.FetchFinalize? && f.pending > 0) then 1 else 0
  }

  ghost predicate FetchInv(incoming: seq<Request>, f: Fetch, log: FetchLog, line: nat, seen: seq<nat -> u8>, d1: seq<u8>, d2: seq<u8>)
    requires line > 0
  {
    && f.pending == |log.outstanding|
    && FetchAwake(incoming, f)
    && if incoming == [] then f.state.Reading1? && f.off == 0 && log.issued == log.outstanding == []
       else FetchFront(incoming[0].areas, f, log, line, seen, d1, d2)
  }

  // The transfer asked for at offset off of an area, if there is anything left.
  function NextRead(base: nat, total: nat, off: nat, line: nat): seq<Chunk>
    requires off <= total && line > 0
  {
    if off == total then [] else [Chunk(base + off, TransferSize(total, base, off, line))]
  }

  lemma ChunksStep(base: nat, total: nat, off: nat, line: nat)
    requires off <= total && line > 0
    ensures Chunks(base, total, off, line)
         == NextRead(base, total, off, line) + Chunks(base, total, off + TransferSize(total, base, off, line), line)
    ensures Chunks(base, total, total, line) == []
  {
  }

  lemma Left1Step(ar: Areas, off: nat, line: nat, issued: seq<Chunk>)
    requires line > 0 && off <= ar.size1 && issued + ReadsLeft(ar, Reading1, off, line) == AllReads(ar, line)
    ensures var n := TransferSize(ar.size1, ar.base1, off, line);
      var issued' := issued + NextRead(ar.base1, ar.size1, off, line);
      issued' + (if off + n < ar.size1 then ReadsLeft(ar, Reading1, off + n, line) else ReadsLeft(ar, Reading2, 0, line))
      == AllReads(ar, line)
  {
    hide Chunks, TransferSize, AllReads, NextRead;
    ChunksStep(ar.base1, ar.size1, off, line);
  }

  lemma Left2Step(ar: Areas, off: nat, line: nat, issued: seq<Chunk>)
    requires line > 0 && off <= ar.size2 && issued + ReadsLeft(ar, Reading2, off, line) == AllReads(ar, line)
    ensures var n := TransferSize(ar.size2, ar.base2, off, line);
      var issued' := issued + NextRead(ar.base2, ar.size2, off, line);
      issued' + (if off + n < ar.size2 then ReadsLeft(ar, Reading2, off + n, line) else ReadsLeft(ar, FetchFinalize, off, line))
      == AllReads(ar, line)
  {
    hide Chunks, TransferSize, AllReads, NextRead;
    ChunksStep(ar.base2, ar.size2, off, line);
  }

  lemma Fetched1Step(ar: Areas, seen: seq<nat -> u8>, line: nat, off: nat, outstanding: seq<Chunk>, d1: seq<u8>, d2: seq<u8>, stale: seq<u8>)
    requires line > 0 && off <= ar.size1 && Fetched(ar, seen, line, off, 0, outstanding, d1, d2, stale)
    ensures Fetched(ar, seen, line, off + TransferSize(ar.size1, ar.base1, off, line), 0,
                    outstanding + NextRead(ar.base1, ar.size1, off, line), d1, d2, stale)
  {
    hide Fetched;
    if off < ar.size1 {
      Issue1Keeps(ar, seen, line, off, outstanding, TransferSize(ar.size1, ar.base1, off, line), d1, d2, stale);
    } else {
      assert outstanding + [] == outstanding;
    }
  }

  lemma Fetched2Step(ar: Areas, seen: seq<nat -> u8>, line: nat, off: nat, outstanding: seq<Chunk>, d1: seq<u8>, d2: seq<u8>, stale: seq<u8>)
    requires line > 0 && off <= ar.size2 && Fetched(ar, seen, line, ar.size1, off, outstanding, d1, d2, stale)
    requires off == 0 || (ar.base2 + off) % line == 0
    ensures Fetched(ar, seen, line, ar.size1, off + TransferSize(ar.size2, ar.base2, off, line),
                    outstanding + NextRead(ar.base2, ar.size2, off, line), d1, d2, stale)
  {
    hide Fetched;
    if off < ar.size2 {
      Issue2Keeps(ar, seen, line, off, outstanding, d1, d2, stale);
    } else {
      assert outstanding + [] == outstanding;
    }
  }

  lemma FrontRead1(ar: Areas, f: Fetch, f': Fetch, log: FetchLog, line: nat, seen: seq<nat -> u8>, d1: seq<u8>, d2: seq<u8>)
    requires line > 0 && f.state.Reading1? && FetchFront(ar, f, log, line, seen, d1, d2)
    requires var n := TransferSize(ar.size1, ar.base1, f.off, line);
      if f.off + n < ar.size1 then f'.state == Reading1 && f'.off == f.off + n else f'.state == Reading2 && f'.off == 0
    ensures var new' := NextRead(ar.base1, ar.size1, f.off, line);
      FetchFront(ar, f', log.(issued := log.issued + new', outstanding := log.outstanding + new'), line, seen, d1, d2)
  {
    hide Fetched, TransferSize, NextRead, ReadsLeft, AllReads;
    Left1Step(ar, f.off, line, log.issued);
    Fetched1Step(ar, seen, line, f.off, log.outstanding, d1, d2, log.stale);
    if f.off < ar.size1 {
      NextAligned(ar.size1, ar.base1, f.off, line);
    }
  }

  lemma FrontRead2(ar: Areas, f: Fetch, f': Fetch, log: FetchLog, line: nat, seen: seq<nat -> u8>, d1: seq<u8>, d2: seq<u8>)
    requires line > 0 && f.state.Reading2? && FetchFront(ar, f, log, line, seen, d1, d2)
    requires var n := TransferSize(ar.size2, ar.base2, f.off, line);
      if f.off + n < ar.size2 then f'.state == Reading2 && f'.off == f.off + n else f'.state == FetchFinalize && f'.off == f.off
    ensures var new' := NextRead(ar.base2, ar.size2, f.off, line);
      FetchFront(ar, f', log.(issued := log.issued + new', outstanding := log.outstanding + new'), line, seen, d1, d2)
  {
    hide Fetched, TransferSize, NextRead, ReadsLeft, AllReads;
    Left2Step(ar, f.off, line, log.issued);
    Fetched2Step(ar, seen, line, f.off, log.outstanding, d1, d2, log.stale);
    if f.off < ar.size2 {
      NextAligned(ar.size2, ar.base2, f.off, line);
    }
  }

  lemma FrontRespond(ar: Areas, f: Fetch, log: FetchLog, j: nat, line: nat, seen: seq<nat -> u8>,
                     d1: seq<u8>, d2: seq<u8>, d1': seq<u8>, d2': seq<u8>)
    requires line > 0 && FetchFront(ar, f, log, line, seen, d1, d2) && j < |log.outstanding|
    requires Stored1(ar, seen, log.outstanding[j], d1, d1') && Stored2(ar, seen, log.outstanding[j], d2, d2')
    ensures FetchFront(ar, f, log.(outstanding := Without(log.outstanding, j)), line, seen, d1', d2')
  {
    hide Fetched, Stored1, Stored2, ReadsLeft, AllReads;
    RespondKeeps(ar, seen, line, Got1(ar, f), Got2(ar, f), log.outstanding, j, d1, d2, d1', d2', log.stale);
  }

  lemma FrontStarts(ar: Areas, line: nat, seen: seq<nat -> u8>, from: nat, d1: seq<u8>, d2: seq<u8>, f: Fetch)
    requires line > 0 && ar.size1 <= |d1| && ar.size2 <= |d2| && f.state == Reading1 && f.off == 0
    ensures FetchFront(ar, f, FetchLog([], [], d2, from), line, seen, d1, d2)
  {
    hide Chunks, Lost;
  }

  lemma FrontMemoryChange(incoming: seq<Request>, f: Fetch, log: FetchLog, line: nat, seen: seq<nat -> u8>, m: nat -> u8,
                          d1: seq<u8>, d2: seq<u8>)
    requires line > 0 && FetchInv(incoming, f, log, line, seen, d1, d2)
    ensures FetchInv(incoming, f, log, line, seen + [m], d1, d2)
  {
    hide Fetched, FetchAwake, ReadsLeft, AllReads;
    if incoming != [] {
      var ar := incoming[0].areas;
      MemoryChangeKeeps(ar, seen, m, line, Got1(ar, f), Got2(ar, f), log.outstanding, d1, d2, log.stale);
    }
  }

  // With nothing outstanding, what is forwarded was in memory, byte for byte, while the request was
  // at the front, or is a lost byte; and every planned read was made.
  lemma FrontFinalize(job: Job, f: Fetch, log: FetchLog, line: nat, history: seq<nat -> u8>, d1: seq<u8>, d2: seq<u8>)
    requires line > 0 && f.state.FetchFinalize? && log.outstanding == []
    requires FetchFront(job.req.areas, f, log, line, Seen(history, job.from, job.to), d1, d2) && job.stale == log.stale
    requires job.from < job.to <= |history|
    ensures log.issued == AllReads(job.req.areas, line)
    ensures job.req.areas.size1 <= |d1| && job.req.areas.size2 <= |d2|
    ensures ArgumentsFor(job, d1[..job.req.areas.size1], d2[..job.req.areas.size2], history, line)
  {
    hide Chunks, Lost, Seen, Held;
    assert log.issued + [] == log.issued;
    AllFetched(job.req.areas, Seen(history, job.from, job.to), line, d1, d2, log.stale);
  }

  // ----- the invariant of the writeback stage

  ghost predicate WriteRegisters(res: Response, w: Writeback)
    ensures WriteRegisters(res, w) ==> OffsetOk(res, w.state, w.off)
  {
    && (w.state.Writing1? && Wanted1(res) ==> w.off < |res.data1|)
    && (w.state.Writing1? && !Wanted1(res) && Wanted2(res) ==> w.off < |res.data2|)
    && (w.state.Writing1? && !Wanted1(res) && !Wanted2(res) ==> w.off == 0)
    && (w.state.Writing2? ==> Wanted2(res) && w.off < |res.data2|)
  }

  // Memory has taken every write of some bus work.
  ghost predicate AllTaken(work: seq<BusEvent>, moments: seq<nat>) {
    |moments| <= |work| && forall k :: |moments| <= k < |work| ==> !work[k].Wrote?
  }

  // The answer to the barrier comes last: once it is there, memory has taken every write.
  ghost predicate Dealt(w: Writeback, log: WriteLog) {
    && |log.moments| <= |log.work|
    && (log.barriersOut == 1 ==> log.work != [] && log.work[|log.work| - 1].BarrierSent? && |log.moments| < |log.work|)
    && (w.state.WriteFinalize? && log.barriersOut == 0 ==> AllTaken(log.work, log.moments))
  }

  ghost predicate WriteInv(completed: seq<Response>, w: Writeback, log: WriteLog, line: nat)
    requires line > 0
  {
    && log.barriersOut <= 1
    && (log.barriersOut == 1 ==> w.state.WriteFinalize?)
    && Dealt(w, log)
    // Runnable iff there is a response and no barrier is out.
    && w.activations == (if completed != [] && log.barriersOut == 0 then 1 else 0)
    && if completed == [] then w.state.Writing1? && w.off == 0 && log.barriersOut == 0 && log.work == []
       else
         && WriteRegisters(completed[0], w)
         && log.work + BusWorkLeft(completed[0], w.state, w.off, log.barriersOut == 1, line) == BusWork(completed[0], line)
  }

  // The state DoWriteResponse acts in: areas without a result are passed over.
  function Effective(res: Response, state: WritebackState): WritebackState {
    if state.Writing1? && !Wanted1(res) then (if !Wanted2(res) then WriteFinalize else Writing2)
    else if state.Writing2? && !Wanted2(res) then Barrier
    else state
  }

  function ResultBase(res: Response, s: WritebackState): nat {
    if s.Writing1? then res.res1 else res.res2
  }

  function ResultData(res: Response, s: WritebackState): seq<u8> {
    if s.Writing1? then res.data1 else res.data2
  }

  // The writeback registers after a transfer of n bytes in state s.
  function AfterWrite(res: Response, w: Writeback, s: WritebackState, n: nat): Writeback {
    if w.off + n < |ResultData(res, s)| then w.(off := w.off + n)
    else if s.Writing1? && Wanted2(res) then w.(state := Writing2, off := 0)
    else w.(state := Barrier)
  }

  // What the front response has to send next; None once only the notification is left.
  ghost function NextEvent(res: Response, w: Writeback, line: nat): Option<BusEvent>
    requires line > 0
  {
    var s := Effective(res, w.state);
    if s.WriteFinalize? then None
    else if s.Barrier? then Some(BarrierSent(res.device))
    else if w.off > |ResultData(res, s)| then None
    else
      var n := TransferSize(|ResultData(res, s)|, ResultBase(res, s), w.off, line);
      Some(Wrote(res.device, ResultBase(res, s) + w.off, ResultData(res, s)[w.off..w.off + n]))
  }

  lemma WriteInRange(completed: seq<Response>, w: Writeback, log: WriteLog, line: nat)
    requires line > 0 && completed != [] && WriteInv(completed, w, log, line)
    ensures var s := Effective(completed[0], w.state);
      && (s.Writing1? || s.Writing2? ==> w.off < |ResultData(completed[0], s)|)
      && (s != WriteFinalize ==> log.barriersOut == 0)
  {
    hide BusWork, BusWorkLeft;
  }

  lemma WritesStep(device: nat, base: nat, data: seq<u8>, off: nat, line: nat)
    requires off < |data| && line > 0
    ensures var n := TransferSize(|data|, base, off, line);
      Writes(device, base, data, off, line) == [Wrote(device, base + off, data[off..off + n])] + Writes(device, base, data, off + n, line)
    ensures Writes(device, base, data, |data|, line) == []
  {
  }

  // One transfer takes the first write off what is left to do.
  lemma LeftStep(res: Response, w: Writeback, line: nat)
    requires line > 0 && WriteRegisters(res, w)
    requires Effective(res, w.state).Writing1? || Effective(res, w.state).Writing2?
    ensures var s := Effective(res, w.state);
      && w.off < |ResultData(res, s)|
      && var n := TransferSize(|ResultData(res, s)|, ResultBase(res, s), w.off, line);
        var w' := AfterWrite(res, w, s, n);
        && WriteRegisters(res, w') && w'.activations == w.activations && !w'.state.WriteFinalize?
        && BusWorkLeft(res, w.state, w.off, false, line)
           == [Wrote(res.device, ResultBase(res, s) + w.off, ResultData(res, s)[w.off..w.off + n])]
              + BusWorkLeft(res, w'.state, w'.off, false, line)
  {
    hide TransferSize, Writes, Closing;
    var s := Effective(res, w.state);
    WritesStep(res.device, ResultBase(res, s), ResultData(res, s), w.off, line);
  }

  lemma DealtMore(w: Writeback, w': Writeback, log: WriteLog, ev: BusEvent)
    requires Dealt(w, log) && log.barriersOut == 0 && !w'.state.WriteFinalize?
    ensures Dealt(w', log.(work := log.work + [ev]))
  {
  }

  lemma WriteStep(completed: seq<Response>, w: Writeback, log: WriteLog, line: nat)
    requires line > 0 && completed != [] && WriteInv(completed, w, log, line)
    requires Effective(completed[0], w.state).Writing1? || Effective(completed[0], w.state).Writing2?
    ensures var res, s := completed[0], Effective(completed[0], w.state);
      && w.off < |ResultData(res, s)|
      && var n := TransferSize(|ResultData(res, s)|, ResultBase(res, s), w.off, line);
        WriteInv(completed, AfterWrite(res, w, s, n),
                 log.(work := log.work + [Wrote(res.device, ResultBase(res, s) + w.off, ResultData(res, s)[w.off..w.off + n])]), line)
  {
    hide TransferSize, BusWork, BusWorkLeft, Effective, AfterWrite, ResultData, ResultBase, WriteRegisters, Dealt, OffsetOk;
    WriteInRange(completed, w, log, line);
    var res, s := completed[0], Effective(completed[0], w.state);
    LeftStep(res, w, line);
    var n := TransferSize(|ResultData(res, s)|, ResultBase(res, s), w.off, line);
    var w' := AfterWrite(res, w, s, n);
    var ev := Wrote(res.device, ResultBase(res, s) + w.off, ResultData(res, s)[w.off..w.off + n]);
    DealtMore(w, w', log, ev);
    assert log.work + ([ev] + BusWorkLeft(res, w'.state, w'.off, false, line))
        == (log.work + [ev]) + BusWorkLeft(res, w'.state, w'.off, false, line);
  }

  lemma BarrierStep(completed: seq<Response>, w: Writeback, log: WriteLog, line: nat)
    requires line > 0 && completed != [] && WriteInv(completed, w, log, line)
    requires Effective(completed[0], w.state).Barrier?
    ensures WriteInv(completed, w.(state := WriteFinalize, activations := w.activations - 1),
                     log.(barriersOut := log.barriersOut + 1, work := log.work + [BarrierSent(completed[0].device)]), line)
  {
    hide Writes, BusWork;
    var d := completed[0].device;
    assert Closing(d) == [BarrierSent(d)] + [BarrierAnswered];
    assert log.work + ([BarrierSent(d)] + [BarrierAnswered]) == (log.work + [BarrierSent(d)]) + [BarrierAnswered];
  }

  lemma AnswerStep(completed: seq<Response>, w: Writeback, log: WriteLog, line: nat)
    requires line > 0 && WriteInv(completed, w, log, line) && log.barriersOut == 1 && |log.moments| == |log.work| - 1
    ensures w.state == WriteFinalize && w.activations == 0
    ensures WriteInv(completed, w.(activations := w.activations + 1), log.(barriersOut := 0, work := log.work + [BarrierAnswered]), line)
  {
    hide Writes, BusWork;
    assert log.work + [BarrierAnswered] == (log.work + [BarrierAnswered]) + [];
  }

  // When the notification is queued, the response's bus work is complete.
  lemma FinishStep(completed: seq<Response>, w: Writeback, log: WriteLog, line: nat)
    requires line > 0 && completed != [] && WriteInv(completed, w, log, line)
    requires Effective(completed[0], w.state).WriteFinalize? && log.barriersOut == 0
    ensures log.work == BusWork(completed[0], line) && AllTaken(log.work, log.moments)
    ensures WriteInv(completed[1..], Writeback(Writing1, 0, if completed[1..] == [] then 0 else 1), WriteLog(0, [], []), line)
  {
    assert log.work + [] == log.work;
    if completed[1..] != [] {
      FreshResponse(completed[1], line);
    }
  }

  // Memory takes the next write.
  lemma TakeStep(completed: seq<Response>, w: Writeback, log: WriteLog, line: nat, moment: nat)
    requires line > 0 && WriteInv(completed, w, log, line)
    requires |log.moments| < |log.work| && log.work[|log.moments|].Wrote?
    ensures completed != [] && WriteInv(completed, w, log.(moments := log.moments + [moment]), line)
  {
    hide BusWork, BusWorkLeft, WriteRegisters;
  }

  lemma FreshResponse(res: Response, line: nat)
    requires line > 0
    ensures [] + BusWorkLeft(res, Writing1, 0, false, line) == BusWork(res, line)
  {
    hide Writes;
  }

  lemma ServedStep(completed: seq<Response>, res: Response, w: Writeback, log: WriteLog, line: nat)
    requires line > 0 && WriteInv(completed, w, log, line)
    ensures WriteInv(completed + [res], if completed == [] then w.(activations := w.activations + 1) else w, log, line)
  {
    hide Writes, BusWork, BusWorkLeft;
    if completed == [] {
      FreshResponse(res, line);
    }
  }

  // ----- the invariant of the queues

  ghost predicate AllReady(jobs: seq<Job>, ps: seq<ProcessRequest>, history: seq<nat -> u8>, line: nat)
    requires line > 0
  {
    |jobs| == |ps| && forall i :: 0 <= i < |jobs| ==> ReadyFor(jobs[i], ps[i], history, line)
  }

  ghost predicate AllResponses(jobs: seq<Job>, rs: seq<Response>, history: seq<nat -> u8>, service: Service, cfg: Config)
    requires cfg.line > 0
  {
    |jobs| == |rs| && forall i :: 0 <= i < |jobs| ==> ResponseFor(jobs[i], rs[i], history, service, cfg)
  }

  ghost predicate AllWorks(jobs: seq<Job>, works: seq<seq<BusEvent>>, history: seq<nat -> u8>, service: Service, cfg: Config)
    requires cfg.line > 0
  {
    |jobs| == |works| && forall i :: 0 <= i < |jobs| ==> WorkFor(jobs[i], works[i], history, service, cfg)
  }

  function Jobs(l: Ledger): seq<Job> {
    l.doneJobs + l.notifJobs + l.completedJobs + l.readyJobs
  }

  ghost predicate LedgerInv(l: Ledger, incoming: seq<Request>, ready: seq<ProcessRequest>, completed: seq<Response>,
                            notifications: seq<Notification>, history: seq<nat -> u8>, service: Service, cfg: Config)
    requires cfg.line > 0
  {
    && l.accepted == Requests(Jobs(l)) + incoming
    && AllReady(l.readyJobs, ready, history, cfg.line)
    && AllResponses(l.completedJobs, completed, history, service, cfg)
    && notifications == Notifications(Requests(l.notifJobs))
    && l.sent == Notifications(Requests(l.doneJobs))
    && AllWorks(l.doneJobs + l.notifJobs, l.works, history, service, cfg)
  }

  // Every notification sent is that of an accepted request, in order and without gaps, and it
  // follows that request's own bus work.
  lemma InOrder(l: Ledger, incoming: seq<Request>, ready: seq<ProcessRequest>, completed: seq<Response>,
                notifications: seq<Notification>, history: seq<nat -> u8>, service: Service, cfg: Config)
    requires cfg.line > 0 && LedgerInv(l, incoming, ready, completed, notifications, history, service, cfg)
    ensures |l.sent| <= |l.accepted| && l.sent == Notifications(l.accepted[..|l.sent|])
    ensures |l.sent| <= |l.works| <= |Jobs(l)| <= |l.accepted|
    ensures forall i :: 0 <= i < |Jobs(l)| ==> Jobs(l)[i].req == l.accepted[i]
    ensures forall i :: 0 <= i < |l.works| ==> WorkFor(Jobs(l)[i], l.works[i], history, service, cfg)
    ensures |l.accepted| == |l.sent| + |notifications| + |completed| + |ready| + |incoming|
  {
    hide WorkFor, ReadyFor, ResponseFor, NotificationOf;
    assert l.accepted[..|l.doneJobs|] == Requests(l.doneJobs);
    assert forall i :: 0 <= i < |l.works| ==> Jobs(l)[i] == (l.doneJobs + l.notifJobs)[i];
  }

  lemma NotificationsSnoc(jobs: seq<Job>, job: Job)
    ensures Notifications(Requests(jobs + [job])) == Notifications(Requests(jobs)) + [NotificationOf(job.req)]
  {
  }

  // Memory's past does not change.
  lemma ArgumentsLater(job: Job, data1: seq<u8>, data2: seq<u8>, history: seq<nat -> u8>, m: nat -> u8, line: nat)
    requires line > 0 && ArgumentsFor(job, data1, data2, history, line)
    ensures ArgumentsFor(job, data1, data2, history + [m], line)
  {
    hide Held, Lost;
    assert (history + [m])[job.from..job.to] == history[job.from..job.to];
  }

  lemma ResponseLater(job: Job, res: Response, history: seq<nat -> u8>, m: nat -> u8, service: Service, cfg: Config)
    requires cfg.line > 0 && ResponseFor(job, res, history, service, cfg)
    ensures ResponseFor(job, res, history + [m], service, cfg)
  {
    hide ArgumentsFor, Answer;
    var d1, d2 :| ArgumentsFor(job, d1, d2, history, cfg.line) && res == Answer(job.req, d1, d2, service, cfg);
    ArgumentsLater(job, d1, d2, history, m, cfg.line);
  }

  lemma WorkLater(job: Job, work: seq<BusEvent>, history: seq<nat -> u8>, m: nat -> u8, service: Service, cfg: Config)
    requires cfg.line > 0 && WorkFor(job, work, history, service, cfg)
    ensures WorkFor(job, work, history + [m], service, cfg)
  {
    hide ResponseFor, BusWork;
    var res :| ResponseFor(job, res, history, service, cfg) && work == BusWork(res, cfg.line);
    ResponseLater(job, res, history, m, service, cfg);
  }

  lemma LedgerLater(l: Ledger, incoming: seq<Request>, ready: seq<ProcessRequest>, completed: seq<Response>,
                    notifications: seq<Notification>, history: seq<nat -> u8>, m: nat -> u8, service: Service, cfg: Config)
    requires cfg.line > 0 && LedgerInv(l, incoming, ready, completed, notifications, history, service, cfg)
    ensures LedgerInv(l, incoming, ready, completed, notifications, history + [m], service, cfg)
  {
    hide ArgumentsFor, ResponseFor, WorkFor, Requests, Notifications;
    forall i | 0 <= i < |l.readyJobs|
      ensures ReadyFor(l.readyJobs[i], ready[i], history + [m], cfg.line)
    {
      ArgumentsLater(l.readyJobs[i], ready[i].data1, ready[i].data2, history, m, cfg.line);
    }
    forall i | 0 <= i < |l.completedJobs|
      ensures ResponseFor(l.completedJobs[i], completed[i], history + [m], service, cfg)
    {
      ResponseLater(l.completedJobs[i], completed[i], history, m, service, cfg);
    }
    var jobs := l.doneJobs + l.notifJobs;
    forall i | 0 <= i < |jobs|
      ensures WorkFor(jobs[i], l.works[i], history + [m], service, cfg)
    {
      WorkLater(jobs[i], l.works[i], history, m, service, cfg);
    }
  }

  // The ledger after a request was served, its response written back, or its notification sent.
  ghost function ServedLedger(l: Ledger): Ledger
    requires l.readyJobs != []
  {
    l.(completedJobs := l.completedJobs + [l.readyJobs[0]], readyJobs := l.readyJobs[1..])
  }

  ghost function WrittenLedger(l: Ledger, log: WriteLog): Ledger
    requires l.completedJobs != []
  {
    l.(notifJobs := l.notifJobs + [l.completedJobs[0]], completedJobs := l.completedJobs[1..],
       works := l.works + [log.work], taken := l.taken + [log.moments])
  }

  ghost function SentLedger(l: Ledger, n: Notification): Ledger
    requires l.notifJobs != []
  {
    l.(doneJobs := l.doneJobs + [l.notifJobs[0]], notifJobs := l.notifJobs[1..], sent := l.sent + [n])
  }

  lemma AcceptedAre(l: Ledger, incoming: seq<Request>, ready: seq<ProcessRequest>, completed: seq<Response>,
                    notifications: seq<Notification>, history: seq<nat -> u8>, service: Service, cfg: Config)
    requires cfg.line > 0 && LedgerInv(l, incoming, ready, completed, notifications, history, service, cfg)
    ensures |l.accepted| == |Jobs(l)| + |incoming|
  {
    hide AllReady, AllResponses, AllWorks, Notifications;
  }

  // The job of the front response is the first without finished bus work.
  lemma FrontHasJob(l: Ledger, incoming: seq<Request>, ready: seq<ProcessRequest>, completed: seq<Response>,
                    notifications: seq<Notification>, history: seq<nat -> u8>, service: Service, cfg: Config)
    requires cfg.line > 0 && LedgerInv(l, incoming, ready, completed, notifications, history, service, cfg) && completed != []
    ensures |l.works| < |Jobs(l)| && l.completedJobs != []
  {
    hide AllReady, ResponseFor, WorkFor, Notifications;
  }

  lemma LedgerQueue(l: Ledger, req: Request, at: nat, incoming: seq<Request>, ready: seq<ProcessRequest>, completed: seq<Response>,
                    notifications: seq<Notification>, history: seq<nat -> u8>, service: Service, cfg: Config)
    requires cfg.line > 0 && LedgerInv(l, incoming, ready, completed, notifications, history, service, cfg)
    ensures LedgerInv(l.(accepted := l.accepted + [req], acceptedAt := l.acceptedAt + [at]), incoming + [req],
                      ready, completed, notifications, history, service, cfg)
  {
    hide AllReady, AllResponses, AllWorks, Notifications, Requests;
  }

  lemma LedgerFetched(l: Ledger, job: Job, p: ProcessRequest, incoming: seq<Request>, ready: seq<ProcessRequest>,
                      completed: seq<Response>, notifications: seq<Notification>, history: seq<nat -> u8>, service: Service, cfg: Config)
    requires cfg.line > 0 && LedgerInv(l, incoming, ready, completed, notifications, history, service, cfg)
    requires incoming != [] && incoming[0] == job.req && ReadyFor(job, p, history, cfg.line)
    ensures LedgerInv(l.(readyJobs := l.readyJobs + [job]), incoming[1..], ready + [p], completed, notifications, history, service, cfg)
  {
    hide AllResponses, AllWorks, Notifications, ReadyFor;
    assert incoming == [incoming[0]] + incoming[1..];
    assert Jobs(l.(readyJobs := l.readyJobs + [job])) == Jobs(l) + [job];
    assert Requests(Jobs(l) + [job]) == Requests(Jobs(l)) + [job.req];
  }

  lemma LedgerServed(l: Ledger, res: Response, incoming: seq<Request>, ready: seq<ProcessRequest>, completed: seq<Response>,
                     notifications: seq<Notification>, history: seq<nat -> u8>, service: Service, cfg: Config)
    requires cfg.line > 0 && LedgerInv(l, incoming, ready, completed, notifications, history, service, cfg)
    requires ready != [] && Serves(ready[0], res, service, cfg)
    ensures |l.readyJobs| == |ready|
    ensures LedgerInv(ServedLedger(l), incoming, ready[1..], completed + [res], notifications, history, service, cfg)
    ensures Jobs(ServedLedger(l)) == Jobs(l)
  {
    hide AllWorks, Notifications, Requests, ResponseFor, Serves, ReadyFor;
    ServedIsResponse(l.readyJobs[0], ready[0], res, history, service, cfg);
    assert l.readyJobs == [l.readyJobs[0]] + l.readyJobs[1..];
    assert Jobs(ServedLedger(l)) == Jobs(l);
  }

  // The response the service stage makes of a fetched request.
  ghost predicate Serves(p: ProcessRequest, res: Response, service: Service, cfg: Config) {
    var r := service(p.procedure, cfg.maxArg1, cfg.maxArg2, p.data1, p.data2, p.extra1, p.extra2);
    res == Response(p.device, p.res1, p.res2, p.channel, p.tag, r.0, r.1)
  }

  lemma ServedIsResponse(job: Job, p: ProcessRequest, res: Response, history: seq<nat -> u8>, service: Service, cfg: Config)
    requires cfg.line > 0 && ReadyFor(job, p, history, cfg.line) && Serves(p, res, service, cfg)
    ensures ResponseFor(job, res, history, service, cfg)
  {
    hide ArgumentsFor;
    assert res == Answer(job.req, p.data1, p.data2, service, cfg);
  }

  lemma LedgerWritten(l: Ledger, n: Notification, incoming: seq<Request>, ready: seq<ProcessRequest>, completed: seq<Response>,
                      notifications: seq<Notification>, history: seq<nat -> u8>, service: Service, cfg: Config)
    requires cfg.line > 0 && LedgerInv(l, incoming, ready, completed, notifications, history, service, cfg)
    requires completed != [] && n == Notification(completed[0].device, completed[0].channel, completed[0].tag)
    ensures |l.completedJobs| == |completed|
    ensures forall log: WriteLog :: log.work == BusWork(completed[0], cfg.line) ==>
      LedgerInv(WrittenLedger(l, log), incoming, ready, completed[1..], notifications + [n], history, service, cfg)
  {
    hide AllReady, BusWork, Notifications, Requests, ArgumentsFor, ResponseFor;
    var job := l.completedJobs[0];
    ResponseNames(job, completed[0], history, service, cfg);
    NotificationsSnoc(l.notifJobs, job);
    assert WorkFor(job, BusWork(completed[0], cfg.line), history, service, cfg);
    assert l.completedJobs == [job] + l.completedJobs[1..];
    assert l.doneJobs + (l.notifJobs + [job]) == (l.doneJobs + l.notifJobs) + [job];
    assert Jobs(l) == (l.doneJobs + l.notifJobs) + [job] + l.completedJobs[1..] + l.readyJobs;
  }

  lemma ResponseNames(job: Job, res: Response, history: seq<nat -> u8>, service: Service, cfg: Config)
    requires cfg.line > 0 && ResponseFor(job, res, history, service, cfg)
    ensures Notification(res.device, res.channel, res.tag) == NotificationOf(job.req)
  {
    hide ArgumentsFor;
  }

  lemma LedgerSent(l: Ledger, incoming: seq<Request>, ready: seq<ProcessRequest>, completed: seq<Response>,
                   notifications: seq<Notification>, history: seq<nat -> u8>, service: Service, cfg: Config)
    requires cfg.line > 0 && LedgerInv(l, incoming, ready, completed, notifications, history, service, cfg)
    requires notifications != []
    ensures |l.notifJobs| == |notifications|
    ensures LedgerInv(SentLedger(l, notifications[0]), incoming, ready, completed, notifications[1..], history, service, cfg)
    ensures Jobs(SentLedger(l, notifications[0])) == Jobs(l)
  {
    hide AllReady, AllResponses, AllWorks;
    var job := l.notifJobs[0];
    NotificationsSnoc(l.doneJobs, job);
    assert l.notifJobs == [job] + l.notifJobs[1..];
    assert l.doneJobs + [job] + l.notifJobs[1..] == l.doneJobs + l.notifJobs;
  }
}
