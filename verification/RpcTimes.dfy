// arch/dev/RPC.cpp: when things happen. Memory's history orders the acceptance of a request, the
// fetching of its arguments, and the taking of its results.
module RpcTimes {
  import opened Bits
  import opened Rpc
  import opened RpcFetch

  // ----- acceptance and fetching

  // Requests are fetched one after the other, each after it was accepted; from is the moment at
  // which the present front request, the first one without a job, reached the front.
  ghost predicate Stretches(acceptedAt: seq<nat>, jobs: seq<Job>, from: nat, now: nat) {
    && |jobs| <= |acceptedAt| && from < now
    && (forall i :: 0 <= i < |acceptedAt| ==> acceptedAt[i] < now)
    && (forall i :: 0 <= i < |jobs| ==> acceptedAt[i] <= jobs[i].from < jobs[i].to <= now)
    && (forall i, j :: 0 <= i < j < |jobs| && j == i + 1 ==> jobs[i].to <= jobs[j].from + 1)
    && (|jobs| < |acceptedAt| ==> acceptedAt[|jobs|] <= from)
    && (jobs != [] ==> jobs[|jobs| - 1].to <= from + 1)
  }

  // ----- the taking of writes

  // Memory took the first writes of some bus work at these moments, one after the other: with each
  // of them it became what it was, overlaid with the data of the write.
  ghost predicate TakenWrites(work: seq<BusEvent>, moments: seq<nat>, history: seq<nat -> u8>) {
    && |moments| <= |work|
    && (forall k :: 0 <= k < |moments| ==> TakenAt(work[k], moments[k], history))
    && (forall j, k :: 0 <= j < k < |moments| ==> moments[j] < moments[k])
  }

  ghost predicate TakenAt(ev: BusEvent, m: nat, history: seq<nat -> u8>) {
    ev.Wrote? && 0 < m < |history| && history[m] == Overlaid(history[m - 1], ev.addr, ev.data)
  }

  ghost predicate Since(t: nat, moments: seq<nat>) {
    forall k :: 0 <= k < |moments| ==> t <= moments[k]
  }

  ghost predicate Earlier(moments: seq<nat>, later: seq<nat>) {
    forall k, l :: 0 <= k < |moments| && 0 <= l < |later| ==> moments[k] < later[l]
  }

  // All writes of a finished request were taken, after it was fetched and after those of the
  // requests before it.
  ghost predicate Takings(jobs: seq<Job>, works: seq<seq<BusEvent>>, taken: seq<seq<nat>>, history: seq<nat -> u8>) {
    && |taken| == |works| <= |jobs|
    && (forall i :: 0 <= i < |works| ==>
          TakenWrites(works[i], taken[i], history) && AllTaken(works[i], taken[i]) && Since(jobs[i].to, taken[i]))
    && (forall i, j :: 0 <= i < j < |taken| ==> Earlier(taken[i], taken[j]))
  }

  // The same for the writes so far of the front response, whose job is the first unfinished one.
  ghost predicate FrontTakings(jobs: seq<Job>, taken: seq<seq<nat>>, log: WriteLog, history: seq<nat -> u8>) {
    && TakenWrites(log.work, log.moments, history)
    && (if |taken| < |jobs| then Since(jobs[|taken|].to, log.moments) else log.moments == [])
    && (forall i :: 0 <= i < |taken| ==> Earlier(taken[i], log.moments))
  }

  ghost predicate Times(l: Ledger, from: nat, log: WriteLog, history: seq<nat -> u8>) {
    && |l.acceptedAt| == |l.accepted|
    && Stretches(l.acceptedAt, Jobs(l), from, |history|)
    && Takings(Jobs(l), l.works, l.taken, history)
    && FrontTakings(Jobs(l), l.taken, log, history)
  }

  // ----- what each step does to the times

  lemma TimesQueue(l: Ledger, req: Request, from: nat, log: WriteLog, history: seq<nat -> u8>)
    requires Times(l, from, log, history)
    ensures history != []
    ensures Times(l.(accepted := l.accepted + [req], acceptedAt := l.acceptedAt + [|history| - 1]),
                  if |Jobs(l)| == |l.accepted| then |history| - 1 else from, log, history)
  {
    hide Takings, FrontTakings;
  }

  lemma TimesFetched(l: Ledger, job: Job, from: nat, log: WriteLog, history: seq<nat -> u8>)
    requires Times(l, from, log, history) && |Jobs(l)| < |l.accepted| && job.from == from && job.to == |history|
    ensures Times(l.(readyJobs := l.readyJobs + [job]), |history| - 1, log, history)
  {
    hide Stretches, Takings, FrontTakings;
    var jobs := Jobs(l);
    assert Jobs(l.(readyJobs := l.readyJobs + [job])) == jobs + [job];
    StretchFetched(l.acceptedAt, jobs, job, |history|);
    TakingsFetched(jobs, job, l.works, l.taken, log, history);
  }

  lemma StretchFetched(acceptedAt: seq<nat>, jobs: seq<Job>, job: Job, now: nat)
    requires Stretches(acceptedAt, jobs, job.from, now) && |jobs| < |acceptedAt| && job.to == now
    ensures Stretches(acceptedAt, jobs + [job], now - 1, now)
  {
  }

  lemma TakingsFetched(jobs: seq<Job>, job: Job, works: seq<seq<BusEvent>>, taken: seq<seq<nat>>, log: WriteLog,
                       history: seq<nat -> u8>)
    requires Takings(jobs, works, taken, history) && FrontTakings(jobs, taken, log, history)
    ensures Takings(jobs + [job], works, taken, history) && FrontTakings(jobs + [job], taken, log, history)
  {
    hide TakenWrites, Earlier, AllTaken;
    assert forall i :: 0 <= i < |jobs| ==> (jobs + [job])[i] == jobs[i];
  }

  // Jobs that move on to the next queue keep their times.
  lemma TimesMoved(l: Ledger, l': Ledger, from: nat, log: WriteLog, history: seq<nat -> u8>)
    requires Times(l, from, log, history) && Jobs(l') == Jobs(l)
    requires l'.accepted == l.accepted && l'.acceptedAt == l.acceptedAt && l'.works == l.works && l'.taken == l.taken
    ensures Times(l', from, log, history)
  {
    hide Stretches, Takings, FrontTakings;
  }

  lemma JobsWritten(l: Ledger, log: WriteLog)
    requires l.completedJobs != []
    ensures Jobs(WrittenLedger(l, log)) == Jobs(l)
  {
    assert l.completedJobs == [l.completedJobs[0]] + l.completedJobs[1..];
  }

  // The front response is finished.
  lemma TimesWritten(l: Ledger, l': Ledger, from: nat, log: WriteLog, history: seq<nat -> u8>)
    requires Times(l, from, log, history) && Jobs(l') == Jobs(l) && |l.works| < |Jobs(l)| && AllTaken(log.work, log.moments)
    requires l'.accepted == l.accepted && l'.acceptedAt == l.acceptedAt
    requires l'.works == l.works + [log.work] && l'.taken == l.taken + [log.moments]
    ensures Times(l', from, WriteLog(0, [], []), history)
  {
    hide Stretches, TakenAt, AllTaken;
  }

  lemma TimesSending(l: Ledger, from: nat, log: WriteLog, log': WriteLog, history: seq<nat -> u8>)
    requires Times(l, from, log, history) && log.work <= log'.work && log'.moments == log.moments
    ensures Times(l, from, log', history)
  {
    hide Stretches, Takings, TakenAt;
  }

  lemma TimesLater(l: Ledger, from: nat, log: WriteLog, history: seq<nat -> u8>, m: nat -> u8)
    requires Times(l, from, log, history)
    ensures Times(l, from, log, history + [m])
  {
    hide AllTaken, Since, Earlier, Overlaid, Jobs;
  }

  // Memory takes the next write of the front response.
  lemma TimesTaken(l: Ledger, from: nat, log: WriteLog, history: seq<nat -> u8>)
    requires Times(l, from, log, history) && |l.works| < |Jobs(l)|
    requires |log.moments| < |log.work| && log.work[|log.moments|].Wrote?
    ensures history != []
    ensures var ev := log.work[|log.moments|];
      var m := Overlaid(history[|history| - 1], ev.addr, ev.data);
      Times(l, from, log.(moments := log.moments + [|history|]), history + [m])
  {
    var ev := log.work[|log.moments|];
    var m := Overlaid(history[|history| - 1], ev.addr, ev.data);
    TimesLater(l, from, log, history, m);
    hide Stretches, Takings, AllTaken, Overlaid, Jobs;
    MomentsPast(l, from, log, history);
  }

  lemma MomentsPast(l: Ledger, from: nat, log: WriteLog, history: seq<nat -> u8>)
    requires Times(l, from, log, history)
    ensures forall k :: 0 <= k < |log.moments| ==> log.moments[k] < |history|
    ensures forall i, k :: 0 <= i < |l.taken| && 0 <= k < |l.taken[i]| ==> l.taken[i][k] < |history|
    ensures forall i :: 0 <= i < |Jobs(l)| ==> Jobs(l)[i].to <= |history|
  {
    hide AllTaken, Since, Earlier, Overlaid, Jobs;
  }

  // ----- what is in memory afterwards

  lemma {:induction false} MemAfterConcat(mem: nat -> u8, first: seq<BusEvent>, then_: seq<BusEvent>)
    ensures MemAfter(mem, first + then_) == MemAfter(MemAfter(mem, first), then_)
    decreases |first|
  {
    if first == [] {
      assert first + then_ == then_;
    } else {
      assert (first + then_)[1..] == first[1..] + then_;
      MemAfterConcat(if first[0].Wrote? then Overlaid(mem, first[0].addr, first[0].data) else mem, first[1..], then_);
    }
  }

  lemma {:induction false} NoWritesNoChange(mem: nat -> u8, events: seq<BusEvent>)
    requires forall k :: 0 <= k < |events| ==> !events[k].Wrote?
    ensures MemAfter(mem, events) == mem
    decreases |events|
  {
    if events != [] {
      NoWritesNoChange(mem, events[1..]);
    }
  }

  // At moment m memory did not change at address a.
  ghost predicate Untouched(history: seq<nat -> u8>, m: nat, a: nat)
    requires 0 < m < |history|
  {
    history[m](a) == history[m - 1](a)
  }

  // An address that only these writes have changed since moment s holds what they made of it.
  lemma {:induction false} TakenGives(work: seq<BusEvent>, moments: seq<nat>, history: seq<nat -> u8>, s: nat, t: nat, k: nat, a: nat)
    requires TakenWrites(work, moments, history) && s <= t < |history| && k <= |moments|
    requires forall j :: 0 <= j < k ==> s < moments[j] <= t
    requires forall j :: k <= j < |moments| ==> t < moments[j]
    requires forall m: nat :: s < m <= t && m !in moments ==> Untouched(history, m, a)
    ensures history[t](a) == MemAfter(history[s], work[..k])(a)
    decreases t
  {
    hide Overlaid, MemAfter;
    if t == s {
      assert k == 0;
      NoWritesNoChange(history[s], work[..0]);
    } else if k > 0 && moments[k - 1] == t {
      TakenGives(work, moments, history, s, t - 1, k - 1, a);
      var ev := work[k - 1];
      assert TakenAt(ev, t, history);
      assert work[..k] == work[..k - 1] + [ev];
      MemAfterConcat(history[s], work[..k - 1], [ev]);
      MemAfterOne(MemAfter(history[s], work[..k - 1]), ev);
      OverlaidAt(history[t - 1], MemAfter(history[s], work[..k - 1]), ev.addr, ev.data, a);
    } else {
      assert Untouched(history, t, a);
      TakenGives(work, moments, history, s, t - 1, k, a);
    }
  }

  lemma MemAfterOne(mem: nat -> u8, ev: BusEvent)
    requires ev.Wrote?
    ensures MemAfter(mem, [ev]) == Overlaid(mem, ev.addr, ev.data)
  {
    NoWritesNoChange(Overlaid(mem, ev.addr, ev.data), []);
  }

  lemma OverlaidAt(mem: nat -> u8, mem': nat -> u8, addr: nat, data: seq<u8>, a: nat)
    requires mem(a) == mem'(a)
    ensures Overlaid(mem, addr, data)(a) == Overlaid(mem', addr, data)(a)
  {
  }

  ghost function ResultByte(res: Response, mem: nat -> u8, a: nat): u8 {
    if Wanted2(res) && res.res2 <= a < res.res2 + |res.data2| then res.data2[a - res.res2]
    else if Wanted1(res) && res.res1 <= a < res.res1 + |res.data1| then res.data1[a - res.res1]
    else mem(a)
  }

  lemma BusWorkGives(mem: nat -> u8, res: Response, line: nat, a: nat)
    requires line > 0
    ensures MemAfter(mem, BusWork(res, line))(a) == ResultByte(res, mem, a)
  {
    hide MemAfter, Writes, Carries;
    var first := if Wanted1(res) then Writes(res.device, res.res1, res.data1, 0, line) else [];
    var second := if Wanted2(res) then Writes(res.device, res.res2, res.data2, 0, line) else [];
    var closing := if Wanted1(res) || Wanted2(res) then Closing(res.device) else [];
    MemAfterConcat(mem, first + second, closing);
    MemAfterConcat(mem, first, second);
    NoWritesNoChange(MemAfter(mem, first + second), closing);
    if Wanted1(res) {
      WritesCarry(res.device, res.res1, res.data1, 0, line);
      CarriedToMemory(mem, first, res.device, res.res1, res.data1, 0, line);
    } else {
      NoWritesNoChange(mem, first);
    }
    if Wanted2(res) {
      WritesCarry(res.device, res.res2, res.data2, 0, line);
      CarriedToMemory(MemAfter(mem, first), second, res.device, res.res2, res.data2, 0, line);
    } else {
      NoWritesNoChange(MemAfter(mem, first), second);
    }
  }

  // A finished result is in memory: where nothing else has changed memory since moment s, before the
  // first of its writes, there is now the second result, the first where that does not lie over it,
  // and elsewhere what was there.
  lemma ResultInMemory(res: Response, line: nat, moments: seq<nat>, history: seq<nat -> u8>, s: nat, t: nat, a: nat)
    requires line > 0 && TakenWrites(BusWork(res, line), moments, history) && AllTaken(BusWork(res, line), moments)
    requires s <= t < |history| && forall k :: 0 <= k < |moments| ==> s < moments[k] <= t
    requires forall m: nat :: s < m <= t && m !in moments ==> Untouched(history, m, a)
    ensures history[t](a) == ResultByte(res, history[s], a) ==
      if res.res2 != 0 && res.res2 <= a < res.res2 + |res.data2| then res.data2[a - res.res2]
      else if res.res1 != 0 && res.res1 <= a < res.res1 + |res.data1| then res.data1[a - res.res1]
      else history[s](a)
  {
    ResultByteIs(res, history[s], a);
    hide TakenAt, Untouched, MemAfter, BusWork, ResultByte;
    var work := BusWork(res, line);
    TakenGives(work, moments, history, s, t, |moments|, a);
    assert work == work[..|moments|] + work[|moments|..];
    MemAfterConcat(history[s], work[..|moments|], work[|moments|..]);
    NoWritesNoChange(MemAfter(history[s], work[..|moments|]), work[|moments|..]);
    BusWorkGives(history[s], res, line, a);
  }

  lemma ResultByteIs(res: Response, mem: nat -> u8, a: nat)
    ensures ResultByte(res, mem, a) ==
      if res.res2 != 0 && res.res2 <= a < res.res2 + |res.data2| then res.data2[a - res.res2]
      else if res.res1 != 0 && res.res1 <= a < res.res1 + |res.data1| then res.data1[a - res.res1]
      else mem(a)
  {
  }

  // What a client finds: if its argument areas held a1 and a2 while they were fetched, and lost nothing,
  // then once memory has taken the writes of its request the result areas hold what the service makes
  // of a1 and a2, the second over the first; a result with the address 0 is not written.
  lemma ServiceInMemory(job: Job, work: seq<BusEvent>, mem: nat -> u8, a1: seq<u8>, a2: seq<u8>, moments: seq<nat>,
                        history: seq<nat -> u8>, service: Service, cfg: Config, s: nat, t: nat, a: nat)
    requires cfg.line > 0 && WorkFor(job, work, history, service, cfg) && Steady(job, mem, history)
    requires var ar := job.req.areas;
      && !Lost(ar, ar.base1 + ar.size1, cfg.line)
      && |a1| == ar.size1 && (forall i :: 0 <= i < |a1| ==> a1[i] == mem(ar.base1 + i))
      && |a2| == ar.size2 && (forall i :: 0 <= i < |a2| ==> a2[i] == mem(ar.base2 + i))
    requires TakenWrites(work, moments, history) && AllTaken(work, moments)
    requires s <= t < |history| && forall k :: 0 <= k < |moments| ==> s < moments[k] <= t
    requires forall m: nat :: s < m <= t && m !in moments ==> Untouched(history, m, a)
    ensures var req := job.req;
      var (d1, d2) := service(req.procedure, cfg.maxArg1, cfg.maxArg2, a1, a2, req.extra1, req.extra2);
      history[t](a) ==
        if req.res2 != 0 && req.res2 <= a < req.res2 + |d2| then d2[a - req.res2]
        else if req.res1 != 0 && req.res1 <= a < req.res1 + |d1| then d1[a - req.res1]
        else history[s](a)
  {
    hide TakenWrites, AllTaken, Untouched, WorkFor, Steady, Lost, BusWork, ResultByte;
    var ar := job.req.areas;
    SteadyWork(job, work, mem, history, service, cfg);
    assert a1 == MemRange(mem, ar.base1, ar.size1) && a2 == MemRange(mem, ar.base2, ar.size2);
    ResultInMemory(Answer(job.req, a1, a2, service, cfg), cfg.line, moments, history, s, t, a);
  }

  // ----- how many answers to barriers have been noted

  ghost function AnswersOf(work: seq<BusEvent>): nat {
    if work == [] then 0
    else AnswersOf(work[..|work| - 1]) + if work[|work| - 1].BarrierAnswered? then 1 else 0
  }

  ghost function AnswersIn(works: seq<seq<BusEvent>>): nat {
    if works == [] then 0 else AnswersIn(works[..|works| - 1]) + AnswersOf(works[|works| - 1])
  }

  ghost function AnswersNoted(l: Ledger, log: WriteLog): nat {
    AnswersIn(l.works) + AnswersOf(log.work)
  }

  lemma AnswersOneMore(work: seq<BusEvent>, ev: BusEvent)
    ensures AnswersOf(work + [ev]) == AnswersOf(work) + if ev.BarrierAnswered? then 1 else 0
  {
    assert (work + [ev])[..|work|] == work;
  }

  lemma AnswersMoved(works: seq<seq<BusEvent>>, work: seq<BusEvent>)
    ensures AnswersIn(works + [work]) == AnswersIn(works) + AnswersOf(work) && AnswersOf([]) == 0
  {
    assert (works + [work])[..|works|] == works;
  }
}
