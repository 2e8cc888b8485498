// arch/dev/RPC.cpp: the handlers of the device. Each is one atomic step; the network chooses the
// order of all of them, whether it takes a message now (sendOk), and when it answers.
module RpcDevice {
  import opened Arith
  import opened Bits
  import opened Options
  import opened RpcChunks
  import opened RpcFetch
  import opened Rpc
  import opened RpcTimes

  function LowHalf(x: nat, v: u32): nat {
    x / U32_SIZE * U32_SIZE + v
  }

  function HighHalf(x: nat, v: u32): nat {
    x % U32_SIZE + v * U32_SIZE
  }

  // The latch after a register write. Both sizes are clipped with the limit of the first buffer.
  function LatchWord(r: Request, word: nat, v: u32, cfg: Config): (r': Request)
    ensures Sized(cfg, r) ==> Sized(cfg, r')
  {
    match word
    case 1 => r.(device := v % 0x1_0000, channel := v / 0x1_0000)
    case 2 => r.(procedure := v)
    case 4 => r.(tag := LowHalf(r.tag, v))
    case 5 => r.(tag := HighHalf(r.tag, v))
    case 6 => r.(areas := r.areas.(size1 := Min(Limit(cfg), v)))
    case 7 => r.(areas := r.areas.(size2 := Min(Limit(cfg), v)))
    case 8 => r.(areas := r.areas.(base1 := LowHalf(r.areas.base1, v)))
    case 9 => r.(areas := r.areas.(base1 := HighHalf(r.areas.base1, v)))
    case 10 => r.(areas := r.areas.(base2 := LowHalf(r.areas.base2, v)))
    case 11 => r.(areas := r.areas.(base2 := HighHalf(r.areas.base2, v)))
    case 12 => r.(extra1 := v)
    case 13 => r.(extra2 := v)
    case 14 => r.(res1 := LowHalf(r.res1, v))
    case 15 => r.(res1 := HighHalf(r.res1, v))
    case 16 => r.(res2 := LowHalf(r.res2, v))
    case 17 => r.(res2 := HighHalf(r.res2, v))
    case _ => r
  }

  function Low(x: nat): nat {
    x % U32_SIZE
  }

  function High(x: nat): nat {
    x / U32_SIZE % U32_SIZE
  }

  function Pair(device: nat, channel: nat): nat {
    device % 0x1_0000 + channel % 0x1_0000 * 0x1_0000
  }

  // What a read of the same register gives.
  function LatchRead(r: Request, word: nat): nat {
    match word
    case 1 => Pair(r.device, r.channel)
    case 2 => r.procedure
    case 4 => Low(r.tag)
    case 5 => High(r.tag)
    case 6 => Low(r.areas.size1)
    case 7 => Low(r.areas.size2)
    case 8 => Low(r.areas.base1)
    case 9 => High(r.areas.base1)
    case 10 => Low(r.areas.base2)
    case 11 => High(r.areas.base2)
    case 12 => r.extra1
    case 13 => r.extra2
    case 14 => Low(r.res1)
    case 15 => High(r.res1)
    case 16 => Low(r.res2)
    case 17 => High(r.res2)
    case _ => 0
  }

  predicate IsLatchWord(word: nat) {
    1 <= word <= 17 && word != 3
  }

  // Each field in the width of its type.
  predicate Fits(r: Request) {
    && r.device < 0x1_0000 && r.channel < 0x1_0000
    && r.procedure < U32_SIZE && r.extra1 < U32_SIZE && r.extra2 < U32_SIZE
    && r.areas.size1 < U32_SIZE && r.areas.size2 < U32_SIZE
    && r.areas.base1 < U64_SIZE && r.areas.base2 < U64_SIZE
    && r.res1 < U64_SIZE && r.res2 < U64_SIZE && r.tag < U64_SIZE
  }

  lemma Halves(x: nat, v: u32)
    requires x < U64_SIZE
    ensures LowHalf(x, v) < U64_SIZE && Low(LowHalf(x, v)) == v && High(LowHalf(x, v)) == High(x)
    ensures HighHalf(x, v) < U64_SIZE && Low(HighHalf(x, v)) == Low(x) && High(HighHalf(x, v)) == v
  {
  }

  lemma PairReadsBack(v: u32)
    ensures Pair(v % 0x1_0000, v / 0x1_0000) == v && v % 0x1_0000 < 0x1_0000 && v / 0x1_0000 < 0x1_0000
  {
  }

  lemma SizeReadsBack(cfg: Config, v: u32)
    ensures Min(Limit(cfg), v) < U32_SIZE && Low(Min(Limit(cfg), v)) == Min(Limit(cfg), v)
  {
  }

  // A register read gives what was last written to that word, the sizes clipped; a write changes no
  // other word.
  lemma LatchReadsBack(r: Request, word: nat, v: u32, cfg: Config, word': nat)
    requires Fits(r) && IsLatchWord(word) && IsLatchWord(word')
    ensures Fits(LatchWord(r, word, v, cfg))
    ensures LatchRead(LatchWord(r, word, v, cfg), word')
      == if word' != word then LatchRead(r, word') else if word == 6 || word == 7 then Min(Limit(cfg), v) else v
  {
    hide LowHalf, HighHalf, Low, High, Pair, Min, Limit;
    Halves(r.tag, v);
    Halves(r.areas.base1, v);
    Halves(r.areas.base2, v);
    Halves(r.res1, v);
    Halves(r.res2, v);
    PairReadsBack(v);
    SizeReadsBack(cfg, v);
  }

  predicate ReadAlike(r: Request, r': Request) {
    forall word: nat :: word <= 17 ==> LatchRead(r, word) == LatchRead(r', word)
  }

  // The words make up the latch: two latches that read alike are the same.
  lemma LatchDetermined(r: Request, r': Request)
    requires Fits(r) && Fits(r') && ReadAlike(r, r')
    ensures r == r'
  {
    AlikeHalves(r, r');
    AlikeWords(r, r');
    hide ReadAlike, Low, High;
    SameHalves(r.tag, r'.tag);
    SameHalves(r.areas.base1, r'.areas.base1);
    SameHalves(r.areas.base2, r'.areas.base2);
    SameHalves(r.res1, r'.res1);
    SameHalves(r.res2, r'.res2);
  }

  predicate SameWords(x: nat, y: nat) {
    Low(x) == Low(y) && High(x) == High(y)
  }

  lemma AlikeHalves(r: Request, r': Request)
    requires ReadAlike(r, r')
    ensures SameWords(r.tag, r'.tag)
    ensures SameWords(r.areas.base1, r'.areas.base1) && SameWords(r.areas.base2, r'.areas.base2)
    ensures SameWords(r.res1, r'.res1) && SameWords(r.res2, r'.res2)
  {
    hide Low, High;
    assert LatchRead(r, 4) == LatchRead(r', 4) && LatchRead(r, 5) == LatchRead(r', 5);
    assert LatchRead(r, 8) == LatchRead(r', 8) && LatchRead(r, 9) == LatchRead(r', 9);
    assert LatchRead(r, 10) == LatchRead(r', 10) && LatchRead(r, 11) == LatchRead(r', 11);
    assert LatchRead(r, 14) == LatchRead(r', 14) && LatchRead(r, 15) == LatchRead(r', 15);
    assert LatchRead(r, 16) == LatchRead(r', 16) && LatchRead(r, 17) == LatchRead(r', 17);
  }

  lemma SamePair(r: Request, r': Request)
    requires Fits(r) && Fits(r') && Pair(r.device, r.channel) == Pair(r'.device, r'.channel)
    ensures r.device == r'.device && r.channel == r'.channel
  {
  }

  lemma SameSizes(r: Request, r': Request)
    requires Fits(r) && Fits(r')
    requires Low(r.areas.size1) == Low(r'.areas.size1) && Low(r.areas.size2) == Low(r'.areas.size2)
    ensures r.areas.size1 == r'.areas.size1 && r.areas.size2 == r'.areas.size2
  {
  }

  lemma AlikeWords(r: Request, r': Request)
    requires Fits(r) && Fits(r') && ReadAlike(r, r')
    ensures r.device == r'.device && r.channel == r'.channel && r.procedure == r'.procedure
    ensures r.areas.size1 == r'.areas.size1 && r.areas.size2 == r'.areas.size2
    ensures r.extra1 == r'.extra1 && r.extra2 == r'.extra2
  {
    hide Low, High, Pair, Fits;
    assert LatchRead(r, 1) == LatchRead(r', 1) && LatchRead(r, 2) == LatchRead(r', 2);
    assert LatchRead(r, 6) == LatchRead(r', 6) && LatchRead(r, 7) == LatchRead(r', 7);
    assert LatchRead(r, 12) == LatchRead(r', 12) && LatchRead(r, 13) == LatchRead(r', 13);
    SamePair(r, r');
    SameSizes(r, r');
  }

  lemma SameHalves(x: nat, y: nat)
    requires x < U64_SIZE && y < U64_SIZE && SameWords(x, y)
    ensures x == y
  {
  }

  // The clipped second size fits the second buffer for all writes exactly if the limit of the
  // first buffer does. Otherwise a write of the limit to word 7 leads to reads past its end.
  lemma SecondSizeFits(r: Request, cfg: Config)
    ensures (forall v: u32 :: LatchWord(r, 7, v, cfg).areas.size2 <= cfg.maxArg2) <==> Limit(cfg) <= cfg.maxArg2
    ensures Limit(cfg) > cfg.maxArg2 ==> LatchWord(r, 7, Limit(cfg), cfg).areas.size2 > cfg.maxArg2
  {
    assert LatchWord(r, 7, Limit(cfg), cfg).areas.size2 == Limit(cfg);
  }

  class Device {
    const cfg: Config
    const argData1: array<u8>
    const argData2: array<u8>
    const service: Service
    var latch: Request
    var queueEnabled: bool
    var incoming: seq<Request>
    var ready: seq<ProcessRequest>
    var completed: seq<Response>
    var notifications: seq<Notification>
    var fetch: Fetch
    var wb: Writeback

    // The other side of the network: what it still owes the two stages that wait for it, and all
    // states of memory so far, the last of them the present one.
    var fetchLog: FetchLog
    var writeLog: WriteLog
    var history: seq<nat -> u8>
    ghost var ledger: Ledger

    // The states of memory since the front request reached the front.
    function Fetching(): seq<nat -> u8>
      reads this`history, this`fetchLog
    {
      Seen(history, fetchLog.from, |history|)
    }

    ghost predicate Valid()
      reads this, argData1, argData2
    {
      && ConfigOk(cfg)
      && argData1.Length == cfg.maxArg1 && argData2.Length == cfg.maxArg2 && argData1 != argData2
      && Fits(latch) && Sized(cfg, latch) && AllSized(cfg, incoming)
      && fetchLog.from < |history|
      && FetchInv(incoming, fetch, fetchLog, cfg.line, Fetching(), argData1[..], argData2[..])
      && WriteInv(completed, wb, writeLog, cfg.line)
      && LedgerInv(ledger, incoming, ready, completed, notifications, history, service, cfg)
      && Times(ledger, fetchLog.from, writeLog, history)
    }

    constructor (cfg: Config, service: Service, mem: nat -> u8)
      requires ConfigOk(cfg)
      ensures Valid() && this.cfg == cfg && this.service == service && history == [mem]
      ensures ledger.accepted == [] && !queueEnabled
      ensures fresh(argData1) && fresh(argData2)
    {
      this.cfg, this.service, history := cfg, service, [mem];
      argData1 := new u8[cfg.maxArg1](_ => 0);
      argData2 := new u8[cfg.maxArg2](_ => 0);
      latch := Request(0, 0, 0, 0, Areas(0, 0, 0, 0), 0, 0, 0, 0);
      queueEnabled := false;
      incoming, ready, completed, notifications := [], [], [], [];
      fetch, wb := Fetch(Reading1, 0, 0, 0), Writeback(Writing1, 0, 0);
      fetchLog, writeLog := FetchLog([], [], [], 0), WriteLog(0, [], []);
      ledger := Ledger([], [], [], [], [], [], [], [], []);
      new;
      assert Requests(Jobs(ledger)) == [] && Notifications([]) == [];
      assert LedgerInv(ledger, incoming, ready, completed, notifications, history, service, cfg);
    }

    // A register write: word 0 issues the command in the latch, the others change the latch. The
    // number of the word is cut down to 32 bits. A flag takes one update in a cycle: when the last
    // command has just been queued in this one, setting it again is refused, which nobody notices.
    method OnWriteRequest(address: nat, size: nat, value: u32, flagUpdated: bool) returns (ok: bool)
      requires Valid()
      modifies this`latch, this`queueEnabled
      ensures Valid()
      ensures var word := address / 4 % U32_SIZE;
        && (ok <==> address % 4 == 0 && size == 4 && (word == 0 || IsLatchWord(word)))
        && (ok && word != 0 ==> latch == LatchWord(old(latch), word, value, cfg) && queueEnabled == old(queueEnabled))
        && (ok && word == 0 ==> latch == old(latch) && queueEnabled == (old(queueEnabled) || !flagUpdated))
      ensures !ok ==> unchanged(this)
    {
      hide FetchInv, WriteInv, LedgerInv, LatchWord, Fits, Fetching, Times;
      if address % 4 != 0 || size != 4 {
        return false;
      }
      var word: nat := address / 4 % U32_SIZE;
      if word == 3 || word > 17 {
        return false;
      }
      if word == 0 {
        if !flagUpdated {
          queueEnabled := true;
        }
      } else {
        LatchReadsBack(latch, word, value, cfg, word);
        latch := LatchWord(latch, word, value, cfg);
      }
      ok := true;
    }

    // A register read: the latch, the limits and how full the queues are, in 32 bits.
    method OnReadRequest(address: nat, size: nat, sendOk: bool) returns (valid: bool, answer: Option<nat>)
      ensures var word := address / 4 % U32_SIZE;
        && (valid <==> address % 4 == 0 && size == 4 && (word == 0 || IsLatchWord(word) || 64 <= word <= 75))
        && (answer.Some? <==> valid && sendOk)
        && (answer.Some? ==> answer.value == match word
              case 0 => if queueEnabled then 1 else 0
              case 64 => cfg.maxArg1 % U32_SIZE
              case 65 => cfg.maxArg2 % U32_SIZE
              case 66 => cfg.maxArg1 % U32_SIZE
              case 67 => cfg.maxArg2 % U32_SIZE
              case 68 => |incoming| % U32_SIZE
              case 69 => cfg.incomingCap % U32_SIZE
              case 70 => |ready| % U32_SIZE
              case 71 => cfg.readyCap % U32_SIZE
              case 72 => |completed| % U32_SIZE
              case 73 => cfg.completedCap % U32_SIZE
              case 74 => |notifications| % U32_SIZE
              case 75 => cfg.notificationCap % U32_SIZE
              case _ => LatchRead(latch, word) % U32_SIZE)
    {
      if address % 4 != 0 || size != 4 {
        return false, None;
      }
      var word: nat := address / 4 % U32_SIZE;
      if word == 3 || (word > 17 && word < 64) || word > 75 {
        return false, None;
      }
      valid := true;
      var value;
      match word {
        case 0 => value := if queueEnabled then 1 else 0;
        case 64 => value := cfg.maxArg1;
        case 65 => value := cfg.maxArg2;
        case 66 => value := cfg.maxArg1;
        case 67 => value := cfg.maxArg2;
        case 68 => value := |incoming|;
        case 69 => value := cfg.incomingCap;
        case 70 => value := |ready|;
        case 71 => value := cfg.readyCap;
        case 72 => value := |completed|;
        case 73 => value := cfg.completedCap;
        case 74 => value := |notifications|;
        case 75 => value := cfg.notificationCap;
        case _ => value := LatchRead(latch, word);
      }
      answer := if sendOk then Some(value % U32_SIZE) else None;
    }

    // p_queueRequest
    method DoQueue() returns (ok: bool)
      requires Valid() && queueEnabled
      modifies this`incoming, this`queueEnabled, this`fetch, this`fetchLog, this`ledger
      ensures Valid()
      ensures ok <==> |old(incoming)| < cfg.incomingCap
      ensures ok ==>
        && !queueEnabled && incoming == old(incoming) + [latch]
        && ledger == old(ledger).(accepted := old(ledger.accepted) + [latch], acceptedAt := old(ledger.acceptedAt) + [|history| - 1])
        && fetchLog == if old(incoming) == [] then old(fetchLog).(stale := argData2[..], from := |history| - 1) else old(fetchLog)
      ensures !ok ==> unchanged(this)
    {
      hide FetchInv, WriteInv, LedgerInv, Times, Jobs;
      AcceptedAre(ledger, incoming, ready, completed, notifications, history, service, cfg);
      TimesQueue(ledger, latch, fetchLog.from, writeLog, history);
      if |incoming| >= cfg.incomingCap {
        return false;
      }
      QueueFetch(latch, incoming, fetch, fetchLog, cfg, Fetching(), history, argData1[..], argData2[..]);
      LedgerQueue(ledger, latch, |history| - 1, incoming, ready, completed, notifications, history, service, cfg);
      if incoming == [] {
        assert incoming + [latch] == [latch];
        fetchLog := fetchLog.(stale := argData2[..], from := |history| - 1);
        fetch := fetch.(activations := fetch.activations + 1);  // the buffer became non-empty
      }
      ledger := ledger.(accepted := ledger.accepted + [latch], acceptedAt := ledger.acceptedAt + [|history| - 1]);
      incoming := incoming + [latch];
      queueEnabled := false;
      ok := true;
    }

    // The next transfer has been asked for.
    ghost predicate AskedMore(incoming0: seq<Request>, f: Fetch, log: FetchLog)
      requires cfg.line > 0
      reads this`fetchLog
    {
      && incoming0 != []
      && var asked := AskedNext(incoming0[0].areas, f, cfg.line);
        fetchLog == log.(issued := log.issued + asked, outstanding := log.outstanding + asked)
    }

    // The front request has been forwarded, with what was fetched from the moment it reached the front
    // up to now, and the next one is at the front from now on.
    ghost predicate Forwarded(incoming0: seq<Request>, log: FetchLog, ready0: seq<ProcessRequest>, ledger0: Ledger)
      requires cfg.line > 0
      reads this, argData2
    {
      && incoming0 != [] && incoming == incoming0[1..] && history != []
      && log.issued == AllReads(incoming0[0].areas, cfg.line) && log.outstanding == []
      && var job := Job(incoming0[0], log.from, |history|, log.stale);
        && |ready| == |ready0| + 1 && ready[..|ready0|] == ready0
        && ReadyFor(job, ready[|ready| - 1], history, cfg.line)
        && ledger == ledger0.(readyJobs := ledger0.readyJobs + [job])
        && fetchLog == FetchLog([], [], argData2[..], |history| - 1)
    }

    // p_argumentFetch, while reading the two areas: ask for one transfer
    method FetchArguments(sendOk: bool) returns (ok: bool)
      requires Valid() && fetch.activations > 0 && !fetch.state.FetchFinalize?
      modifies this`fetch, this`fetchLog
      ensures Valid()
      ensures !ok ==> !sendOk && unchanged(this)
      ensures ok ==> AskedMore(incoming, old(fetch), old(fetchLog))
    {
      hide FetchFront, WriteInv, LedgerInv, TransferSize, NextRead, Times;
      var ar := incoming[0].areas;
      var s := fetch.state;
      var base := if s.Reading1? then ar.base1 else ar.base2;
      var total := if s.Reading1? then ar.size1 else ar.size2;
      FrontRegisters(ar, fetch, fetchLog, cfg.line, Fetching(), argData1[..], argData2[..]);
      NextReadIs(base, total, fetch.off, cfg.line);
      var size := TransferSize(total, base, fetch.off, cfg.line);
      if size > 0 {
        if !sendOk {
          return false;
        }
      }
      ghost var before := fetch;
      var asked := NextRead(base, total, fetch.off, cfg.line);
      var pending := if size > 0 then fetch.pending + 1 else fetch.pending;
      if fetch.off + size < total {
        fetch := Fetch(s, fetch.off + size, pending, fetch.activations);
      } else if s.Reading1? {
        fetch := Fetch(Reading2, 0, pending, fetch.activations);
      } else if pending > 0 {
        // wait until the last response activates the process again
        fetch := Fetch(FetchFinalize, fetch.off, pending, fetch.activations - 1);
      } else {
        fetch := Fetch(FetchFinalize, fetch.off, pending, fetch.activations);
      }
      if s.Reading1? {
        FrontRead1(ar, before, fetch, fetchLog, cfg.line, Fetching(), argData1[..], argData2[..]);
      } else {
        FrontRead2(ar, before, fetch, fetchLog, cfg.line, Fetching(), argData1[..], argData2[..]);
      }
      fetchLog := fetchLog.(issued := fetchLog.issued + asked, outstanding := fetchLog.outstanding + asked);
      ok := true;
    }

    // p_argumentFetch, once both areas are in: forward the request
    method FetchFinish() returns (ok: bool)
      requires Valid() && fetch.activations > 0 && fetch.state.FetchFinalize?
      modifies this`incoming, this`ready, this`fetch, this`fetchLog, this`ledger
      ensures Valid()
      ensures ok <==> |old(ready)| < cfg.readyCap
      ensures !ok ==> unchanged(this)
      ensures ok ==> Forwarded(old(incoming), old(fetchLog), old(ready), old(ledger))
    {
      hide WriteInv, LedgerInv, FetchFront, ReadyFor, ArgumentsFor, AllReads, Seen, Times, Jobs;
      var req := incoming[0];
      var job := Job(req, fetchLog.from, |history|, fetchLog.stale);
      FrontFinalize(job, fetch, fetchLog, cfg.line, history, argData1[..], argData2[..]);
      if |ready| >= cfg.readyCap {
        return false;
      }
      var p := ProcessRequest(req.procedure, req.extra1, req.extra2, req.device, req.res1, req.res2, req.tag, req.channel,
                              argData1[..req.areas.size1], argData2[..req.areas.size2]);
      ReadyIs(job, p, history, cfg.line);
      AcceptedAre(ledger, incoming, ready, completed, notifications, history, service, cfg);
      TimesFetched(ledger, job, fetchLog.from, writeLog, history);
      LedgerFetched(ledger, job, p, incoming, ready, completed, notifications, history, service, cfg);
      NextFetch(incoming, cfg, history, argData1[..], argData2[..]);
      ledger := ledger.(readyJobs := ledger.readyJobs + [job]);
      ready := ready + [p];
      // back to the first state; popping the last request stops the process
      fetch := Fetch(Reading1, 0, 0, if |incoming| == 1 then fetch.activations - 1 else fetch.activations);
      fetchLog := FetchLog([], [], argData2[..], |history| - 1);
      incoming := incoming[1..];
      ok := true;
    }

    // One step either asks for the next transfer or forwards the request with what was fetched from
    // the moment it reached the front up to now, and turns to the next request.
    method DoArgumentFetch(sendOk: bool) returns (ok: bool)
      requires Valid() && fetch.activations > 0
      modifies this`incoming, this`ready, this`fetch, this`fetchLog, this`ledger
      ensures Valid()
      ensures !ok ==> unchanged(this)
      ensures ok && !old(fetch).state.FetchFinalize? ==>
        && AskedMore(old(incoming), old(fetch), old(fetchLog))
        && incoming == old(incoming) && ready == old(ready) && ledger == old(ledger)
      ensures ok && old(fetch).state.FetchFinalize? ==> Forwarded(old(incoming), old(fetchLog), old(ready), old(ledger))
    {
      hide WriteInv, LedgerInv, FetchFront, ReadyFor, AllReads, Times, Forwarded, AskedMore;
      if fetch.state.FetchFinalize? {
        ok := FetchFinish();
      } else {
        ok := FetchArguments(sendOk);
      }
    }

    // The data goes to each area that its address lies in, cut at the end of the area. A length cut
    // for the first area stays cut for the second.
    method StoreAnswer(ar: Areas, address: nat, data: seq<u8>, ghost seen: seq<nat -> u8>)
      requires argData1 != argData2 && ar.size1 <= argData1.Length && ar.size2 <= argData2.Length
      requires forall i :: 0 <= i < |data| ==> Held(seen, address + i, data[i])
      modifies argData1, argData2
      ensures Stored1(ar, seen, Chunk(address, |data|), old(argData1[..]), argData1[..])
      ensures Stored2(ar, seen, Chunk(address, |data|), old(argData2[..]), argData2[..])
    {
      hide Held;
      var size := |data|;
      if ar.base1 <= address < ar.base1 + ar.size1 {
        if address + size >= ar.base1 + ar.size1 {
          size := ar.base1 + ar.size1 - address;
        }
        Store(argData1, address - ar.base1, data, size);
      }
      if ar.base2 <= address < ar.base2 + ar.size2 {
        if address + size >= ar.base2 + ar.size2 {
          size := ar.base2 + ar.size2 - address;
        }
        Store(argData2, address - ar.base2, data, size);
      }
    }

    // The answer to the j-th outstanding read: each byte as memory held it at some moment since
    // the request reached the front.
    method OnReadResponse(address: nat, data: seq<u8>, j: nat)
      requires Valid() && j < |fetchLog.outstanding| && fetchLog.outstanding[j] == Chunk(address, |data|)
      requires forall i :: 0 <= i < |data| ==> Held(Fetching(), address + i, data[i])
      modifies this`fetch, this`fetchLog, argData1, argData2
      ensures Valid() && fetchLog == old(fetchLog).(outstanding := Without(old(fetchLog.outstanding), j))
    {
      hide FetchFront, WriteInv, LedgerInv, Fetched, Held, Seen, Stored1, Stored2, Without, Times;
      var ar := incoming[0].areas;
      ghost var seen := Fetching();
      ghost var d1, d2 := argData1[..], argData2[..];
      AreasFit(ar, fetch, fetchLog, cfg.line, seen, d1, d2);
      StoreAnswer(ar, address, data, seen);
      FrontRespond(ar, fetch, fetchLog, j, cfg.line, seen, d1, d2, argData1[..], argData2[..]);
      if fetch.state.FetchFinalize? && fetch.pending == 1 {
        fetch := fetch.(activations := fetch.activations + 1);
      }
      fetch := fetch.(pending := fetch.pending - 1);
      fetchLog := fetchLog.(outstanding := Without(fetchLog.outstanding, j));
      SameFront(ar, old(fetch), fetch, fetchLog, cfg.line, seen, argData1[..], argData2[..]);
    }

    // The answer to the barrier, once memory has taken the writes before it. Only this answer wakes
    // the stage again.
    method OnBarrierResponse()
      requires Valid() && writeLog.barriersOut > 0 && |writeLog.moments| == |writeLog.work| - 1
      modifies this`wb, this`writeLog
      ensures Valid()
      ensures writeLog == old(writeLog).(barriersOut := 0, work := old(writeLog).work + [BarrierAnswered])
      ensures old(wb).state == WriteFinalize && old(wb).activations == 0 && wb == old(wb).(activations := 1)
    {
      hide FetchInv, LedgerInv, BusWork, BusWorkLeft, Times;
      AnswerStep(completed, wb, writeLog, cfg.line);
      TimesSending(ledger, fetchLog.from, writeLog,
                   writeLog.(barriersOut := 0, work := writeLog.work + [BarrierAnswered]), history);
      assert wb.state == WriteFinalize;
      wb := wb.(activations := wb.activations + 1);
      writeLog := writeLog.(barriersOut := writeLog.barriersOut - 1, work := writeLog.work + [BarrierAnswered]);
    }

    // Memory takes the next write of the device.
    method OnMemoryWrite()
      requires Valid() && |writeLog.moments| < |writeLog.work| && writeLog.work[|writeLog.moments|].Wrote?
      modifies this`writeLog, this`history
      ensures Valid() && writeLog == old(writeLog).(moments := old(writeLog).moments + [|old(history)|])
      ensures var ev := old(writeLog).work[|old(writeLog).moments|];
        history == old(history) + [Overlaid(old(history)[|old(history)| - 1], ev.addr, ev.data)]
    {
      hide FetchInv, WriteInv, LedgerInv, Times, Jobs;
      TakeStep(completed, wb, writeLog, cfg.line, |history|);
      FrontHasJob(ledger, incoming, ready, completed, notifications, history, service, cfg);
      TimesTaken(ledger, fetchLog.from, writeLog, history);
      var ev := writeLog.work[|writeLog.moments|];
      ghost var log := writeLog;
      writeLog := writeLog.(moments := writeLog.moments + [|history|]);
      GrowHistory(Overlaid(history[|history| - 1], ev.addr, ev.data));
    }

    // Memory changes, by whomever and in whatever way.
    method MemoryBecomes(m: nat -> u8)
      requires Valid()
      modifies this`history
      ensures Valid() && history == old(history) + [m]
    {
      hide FetchInv, WriteInv, LedgerInv, Times;
      TimesLater(ledger, fetchLog.from, writeLog, history, m);
      GrowHistory(m);
    }

    // What has been fetched and done so far is not concerned.
    method GrowHistory(m: nat -> u8)
      requires cfg.line > 0 && FetchInv(incoming, fetch, fetchLog, cfg.line, Fetching(), argData1[..], argData2[..])
      requires fetchLog.from < |history|
      requires LedgerInv(ledger, incoming, ready, completed, notifications, history, service, cfg)
      modifies this`history
      ensures history == old(history) + [m]
      ensures FetchInv(incoming, fetch, fetchLog, cfg.line, Fetching(), argData1[..], argData2[..])
      ensures LedgerInv(ledger, incoming, ready, completed, notifications, history, service, cfg)
    {
      hide FetchInv, LedgerInv;
      FrontMemoryChange(incoming, fetch, fetchLog, cfg.line, Fetching(), m, argData1[..], argData2[..]);
      LedgerLater(ledger, incoming, ready, completed, notifications, history, m, service, cfg);
      ghost var before := Fetching();
      history := history + [m];
      assert Fetching() == before + [m];
    }

    // p_processRequests
    method DoProcessRequests() returns (ok: bool)
      requires Valid() && ready != []
      modifies this`ready, this`completed, this`wb, this`ledger
      ensures Valid()
      ensures ok <==> |old(completed)| < cfg.completedCap
      ensures !ok ==> unchanged(this)
      ensures ok ==>
        && ready == old(ready)[1..]
        && (var p := old(ready)[0];
            var (data1, data2) := service(p.procedure, cfg.maxArg1, cfg.maxArg2, p.data1, p.data2, p.extra1, p.extra2);
            completed == old(completed) + [Response(p.device, p.res1, p.res2, p.channel, p.tag, data1, data2)])
        && old(ledger).readyJobs != [] && ledger == ServedLedger(old(ledger))
    {
      hide FetchInv, WriteInv, LedgerInv, Times;
      var req := ready[0];
      var (data1, data2) := service(req.procedure, cfg.maxArg1, cfg.maxArg2, req.data1, req.data2, req.extra1, req.extra2);
      var res := Response(req.device, req.res1, req.res2, req.channel, req.tag, data1, data2);
      if |completed| >= cfg.completedCap {
        return false;
      }
      LedgerServed(ledger, res, incoming, ready, completed, notifications, history, service, cfg);
      ServedStep(completed, res, wb, writeLog, cfg.line);
      if completed == [] {
        wb := wb.(activations := wb.activations + 1);  // the buffer became non-empty
      }
      TimesMoved(ledger, ServedLedger(ledger), fetchLog.from, writeLog, history);
      ledger := ServedLedger(ledger);
      completed := completed + [res];
      ready := ready[1..];
      ok := true;
    }

    // p_writeResponse: sends the next write, or the barrier and sleeps, or queues the notification. It
    // never notes an answer or the taking of a write itself; when the notification is queued memory has
    // taken every write.
    method DoWriteResponse(sendOk: bool) returns (ok: bool)
      requires Valid() && wb.activations > 0
      modifies this`completed, this`notifications, this`wb, this`writeLog, this`ledger
      ensures Valid() && old(completed) != []
      ensures !ok ==> unchanged(this)
      ensures match NextEvent(old(completed)[0], old(wb), cfg.line)
        case Some(ev) =>
          && ok == sendOk && completed == old(completed) && notifications == old(notifications) && ledger == old(ledger)
          && (ok ==> writeLog == old(writeLog).(work := old(writeLog).work + [ev], barriersOut := if ev.BarrierSent? then 1 else 0)
                     && wb.activations == if ev.BarrierSent? then 0 else 1)
        case None =>
          && (ok <==> |old(notifications)| < cfg.notificationCap)
          && (ok ==> FinishedResponse(old(completed), old(notifications), old(writeLog), old(ledger)))
    {
      hide FetchInv, WriteInv, LedgerInv, TransferSize, BusWork, Times;
      WriteAwake(completed, wb, writeLog, cfg.line);
      var res := completed[0];
      var s := wb.state;
      if s.Writing1? && (|res.data1| == 0 || res.res1 == 0) {
        s := if |res.data2| == 0 || res.res2 == 0 then WriteFinalize else Writing2;
      } else if s.Writing2? && (|res.data2| == 0 || res.res2 == 0) {
        s := Barrier;
      }
      WriteInRange(completed, wb, writeLog, cfg.line);
      if s.Writing1? || s.Writing2? {
        WriteStep(completed, wb, writeLog, cfg.line);
        var base := if s.Writing1? then res.res1 else res.res2;
        var data := if s.Writing1? then res.data1 else res.data2;
        var size := TransferSize(|data|, base, wb.off, cfg.line);
        if !sendOk {
          return false;
        }
        ghost var log := writeLog;
        writeLog := writeLog.(work := writeLog.work + [Wrote(res.device, base + wb.off, data[wb.off..wb.off + size])]);
        TimesSending(ledger, fetchLog.from, log, writeLog, history);
        if wb.off + size < |data| {
          wb := wb.(off := wb.off + size);
        } else if s.Writing1? && |res.data2| != 0 && res.res2 != 0 {
          wb := wb.(state := Writing2, off := 0);
        } else {
          wb := wb.(state := Barrier);
        }
        ok := true;
      } else if s.Barrier? {
        BarrierStep(completed, wb, writeLog, cfg.line);
        if !sendOk {
          return false;
        }
        // stop until the answer activates the process again
        wb := wb.(state := WriteFinalize, activations := wb.activations - 1);
        ghost var log := writeLog;
        writeLog := writeLog.(barriersOut := writeLog.barriersOut + 1, work := writeLog.work + [BarrierSent(res.device)]);
        TimesSending(ledger, fetchLog.from, log, writeLog, history);
        ok := true;
      } else {
        ok := FinishResponse();
      }
    }

    // The front response is gone, its notification queued, its bus work complete and taken by memory.
    ghost predicate FinishedResponse(completed0: seq<Response>, notifications0: seq<Notification>, log: WriteLog, ledger0: Ledger)
      requires cfg.line > 0
      reads this
    {
      && completed0 != [] && ledger0.completedJobs != []
      && completed == completed0[1..] && writeLog == WriteLog(0, [], [])
      && log.barriersOut == 0 && log.work == BusWork(completed0[0], cfg.line) && AllTaken(log.work, log.moments)
      && notifications == notifications0 + [Notification(completed0[0].device, completed0[0].channel, completed0[0].tag)]
      && ledger == WrittenLedger(ledger0, log)
    }

    method FinishResponse() returns (ok: bool)
      requires Valid() && completed != [] && writeLog.barriersOut == 0
      requires Effective(completed[0], wb.state).WriteFinalize?
      modifies this`completed, this`notifications, this`wb, this`writeLog, this`ledger
      ensures Valid()
      ensures ok <==> |old(notifications)| < cfg.notificationCap
      ensures !ok ==> unchanged(this)
      ensures ok ==> FinishedResponse(old(completed), old(notifications), old(writeLog), old(ledger))
    {
      hide FetchInv, WriteInv, LedgerInv, BusWork, Effective, Times, AllTaken;
      WriteAwake(completed, wb, writeLog, cfg.line);
      if |notifications| >= cfg.notificationCap {
        return false;
      }
      var res := completed[0];
      var n := Notification(res.device, res.channel, res.tag);
      LedgerWritten(ledger, n, incoming, ready, completed, notifications, history, service, cfg);
      FinishStep(completed, wb, writeLog, cfg.line);
      FrontHasJob(ledger, incoming, ready, completed, notifications, history, service, cfg);
      JobsWritten(ledger, writeLog);
      TimesWritten(ledger, WrittenLedger(ledger, writeLog), fetchLog.from, writeLog, history);
      ledger := WrittenLedger(ledger, writeLog);
      notifications := notifications + [n];
      // back to the first state; popping the last response stops the process
      wb := Writeback(Writing1, 0, if |completed| == 1 then wb.activations - 1 else wb.activations);
      writeLog := WriteLog(0, [], []);
      completed := completed[1..];
      ok := true;
    }

    // p_sendCompletionNotifications
    method DoSendCompletionNotifications(sendOk: bool) returns (ok: bool)
      requires Valid() && notifications != []
      modifies this`notifications, this`ledger
      ensures Valid()
      ensures ok == sendOk
      ensures !ok ==> unchanged(this)
      ensures ok ==>
        && notifications == old(notifications)[1..]
        && old(ledger).notifJobs != [] && ledger == SentLedger(old(ledger), old(notifications)[0])
    {
      hide FetchInv, WriteInv, LedgerInv, Times;
      if !sendOk {
        return false;
      }
      LedgerSent(ledger, incoming, ready, completed, notifications, history, service, cfg);
      TimesMoved(ledger, SentLedger(ledger, notifications[0]), fetchLog.from, writeLog, history);
      ledger := SentLedger(ledger, notifications[0]);
      notifications := notifications[1..];
      ok := true;
    }
  }

  // ----- issuing a command

  // The value last written to a word.
  ghost function LastWritten(writes: seq<(nat, u32)>, word: nat): Option<u32> {
    if writes == [] then None
    else if writes[|writes| - 1].0 == word then Some(writes[|writes| - 1].1)
    else LastWritten(writes[..|writes| - 1], word)
  }

  // Register writes that describe a request: each of its parts was written last to its own word, the
  // wider ones by halves.
  ghost predicate Describes(writes: seq<(nat, u32)>, r: Request) {
    && Fits(r)
    && LastWritten(writes, 1) == Some(r.device + 0x1_0000 * r.channel)
    && LastWritten(writes, 2) == Some(r.procedure)
    && LastWritten(writes, 4) == Some(r.tag % 0x1_0000_0000) && LastWritten(writes, 5) == Some(r.tag / 0x1_0000_0000)
    && LastWritten(writes, 6) == Some(r.areas.size1) && LastWritten(writes, 7) == Some(r.areas.size2)
    && LastWritten(writes, 8) == Some(r.areas.base1 % 0x1_0000_0000)
    && LastWritten(writes, 9) == Some(r.areas.base1 / 0x1_0000_0000)
    && LastWritten(writes, 10) == Some(r.areas.base2 % 0x1_0000_0000)
    && LastWritten(writes, 11) == Some(r.areas.base2 / 0x1_0000_0000)
    && LastWritten(writes, 12) == Some(r.extra1) && LastWritten(writes, 13) == Some(r.extra2)
    && LastWritten(writes, 14) == Some(r.res1 % 0x1_0000_0000) && LastWritten(writes, 15) == Some(r.res1 / 0x1_0000_0000)
    && LastWritten(writes, 16) == Some(r.res2 % 0x1_0000_0000) && LastWritten(writes, 17) == Some(r.res2 / 0x1_0000_0000)
  }

  // What a client does: the request is written word by word, in any order, and then issued. The device
  // takes exactly this request, its sizes cut to the limit of the first buffer.
  method Issue(d: Device, writes: seq<(nat, u32)>, ghost r: Request) returns (queued: bool)
    requires d.Valid() && !d.queueEnabled && Describes(writes, r)
    requires forall i :: 0 <= i < |writes| ==> 1 <= writes[i].0 <= 17 && writes[i].0 != 3
    modifies d
    ensures d.Valid() && queued == (|old(d.incoming)| < d.cfg.incomingCap)
    ensures queued ==>
      var limit := d.cfg.maxArg1 % 0x1_0000_0000;
      var areas := r.areas.(size1 := if r.areas.size1 <= limit then r.areas.size1 else limit,
                            size2 := if r.areas.size2 <= limit then r.areas.size2 else limit);
      d.incoming == old(d.incoming) + [r.(areas := areas)]
  {
    hide *;
    NothingWritten(d.latch, writes, d.cfg);
    for i := 0 to |writes|
      invariant d.Valid() && !d.queueEnabled && d.incoming == old(d.incoming)
      invariant AsWritten(d.latch, writes, i, d.cfg)
    {
      var (word, v) := writes[i];
      ghost var before := d.latch;
      LatchFits(d);
      LatchWords(word);
      WriteRegister(d, word, v);
      OneMoreWritten(before, writes, i, d.cfg);
    }
    LatchFits(d);
    DescribedLatch(d.latch, writes, r, d.cfg);
    CappedIs(r, d.cfg);
    WriteCommand(d);
    queued := d.DoQueue();
  }

  lemma LatchWords(word: nat)
    ensures 1 <= word <= 17 && word != 3 ==> IsLatchWord(word)
  {
  }

  method WriteRegister(d: Device, word: nat, v: u32)
    requires d.Valid() && IsLatchWord(word)
    modifies d`latch, d`queueEnabled
    ensures d.Valid() && d.latch == LatchWord(old(d.latch), word, v, d.cfg) && d.queueEnabled == old(d.queueEnabled)
  {
    hide Device.Valid, LatchWord;
    assert 4 * word / 4 % U32_SIZE == word && 4 * word % 4 == 0;
    var _ := d.OnWriteRequest(4 * word, 4, v, false);
  }

  method WriteCommand(d: Device)
    requires d.Valid()
    modifies d`latch, d`queueEnabled
    ensures d.Valid() && d.latch == old(d.latch) && d.queueEnabled
  {
    hide Device.Valid, LatchWord;
    var _ := d.OnWriteRequest(0, 4, 1, false);
  }

  lemma CappedIs(r: Request, cfg: Config)
    ensures var limit := cfg.maxArg1 % 0x1_0000_0000;
      Capped(r, cfg) == r.(areas := r.areas.(size1 := if r.areas.size1 <= limit then r.areas.size1 else limit,
                                             size2 := if r.areas.size2 <= limit then r.areas.size2 else limit))
  {
  }

  // The latch holds what was written last to each word, as far as that was written.
  ghost predicate AsWritten(latch: Request, writes: seq<(nat, u32)>, n: nat, cfg: Config)
    requires n <= |writes|
  {
    forall word :: IsLatchWord(word) && LastWritten(writes[..n], word).Some? ==>
      LatchRead(latch, word) == Kept(cfg, word, LastWritten(writes[..n], word).value)
  }

  lemma NothingWritten(latch: Request, writes: seq<(nat, u32)>, cfg: Config)
    ensures AsWritten(latch, writes, 0, cfg)
  {
  }

  lemma OneMoreWritten(latch: Request, writes: seq<(nat, u32)>, n: nat, cfg: Config)
    requires n < |writes| && AsWritten(latch, writes, n, cfg) && Fits(latch) && IsLatchWord(writes[n].0)
    ensures AsWritten(LatchWord(latch, writes[n].0, writes[n].1, cfg), writes, n + 1, cfg)
  {
    hide LatchRead, LatchWord, Kept;
    LatchTakes(latch, writes[n].0, writes[n].1, cfg);
    assert writes[..n + 1][..n] == writes[..n];
  }

  // A word as it is kept: sizes are cut.
  ghost function Kept(cfg: Config, word: nat, v: u32): nat {
    if word == 6 || word == 7 then Min(Limit(cfg), v) else v
  }

  lemma LatchFits(d: Device)
    requires d.Valid()
    ensures Fits(d.latch)
  {
  }

  lemma LatchTakes(latch: Request, word: nat, v: u32, cfg: Config)
    requires Fits(latch) && IsLatchWord(word)
    ensures forall word' :: IsLatchWord(word') ==>
      LatchRead(LatchWord(latch, word, v, cfg), word') == if word' == word then Kept(cfg, word, v) else LatchRead(latch, word')
  {
    hide LatchRead, LatchWord, Fits;
    forall word' | IsLatchWord(word')
      ensures LatchRead(LatchWord(latch, word, v, cfg), word') == if word' == word then Kept(cfg, word, v) else LatchRead(latch, word')
    {
      LatchReadsBack(latch, word, v, cfg, word');
    }
  }

  // A latch that reads as the request was written is that request.
  lemma DescribedLatch(latch: Request, writes: seq<(nat, u32)>, r: Request, cfg: Config)
    requires Fits(latch) && Describes(writes, r) && AsWritten(latch, writes, |writes|, cfg)
    ensures latch == Capped(r, cfg)
  {
    assert writes[..|writes|] == writes;
    hide LatchRead, LastWritten, Fits, Describes;
    CappedFits(r, cfg);
    CappedReads(latch, writes, r, cfg);
    LatchDetermined(latch, Capped(r, cfg));
  }

  ghost function Capped(r: Request, cfg: Config): Request {
    r.(areas := r.areas.(size1 := Min(Limit(cfg), r.areas.size1), size2 := Min(Limit(cfg), r.areas.size2)))
  }

  lemma CappedFits(r: Request, cfg: Config)
    requires Fits(r)
    ensures Fits(Capped(r, cfg))
  {
  }

  lemma CappedReads(latch: Request, writes: seq<(nat, u32)>, r: Request, cfg: Config)
    requires Fits(latch) && Describes(writes, r)
    requires forall word :: IsLatchWord(word) && LastWritten(writes, word).Some? ==>
      LatchRead(latch, word) == Kept(cfg, word, LastWritten(writes, word).value)
    ensures ReadAlike(latch, Capped(r, cfg))
  {
    hide LastWritten, Fits;
    DescribedReads(writes, r, cfg);
    forall word: nat | word <= 17
      ensures LatchRead(latch, word) == LatchRead(Capped(r, cfg), word)
    {
      if IsLatchWord(word) {
        assert LatchRead(latch, word) == Kept(cfg, word, LastWritten(writes, word).value);
      }
    }
  }

  lemma DescribedReads(writes: seq<(nat, u32)>, r: Request, cfg: Config)
    requires Describes(writes, r)
    ensures forall word :: IsLatchWord(word) ==>
      LastWritten(writes, word).Some? && LatchRead(Capped(r, cfg), word) == Kept(cfg, word, LastWritten(writes, word).value)
  {
    hide LastWritten;
    HalvesOf(r.tag);
    HalvesOf(r.areas.base1);
    HalvesOf(r.areas.base2);
    HalvesOf(r.res1);
    HalvesOf(r.res2);
    ModSmall(r.device, 0x1_0000);
    ModSmall(r.channel, 0x1_0000);
    hide Low, High;
  }

  lemma HalvesOf(x: nat)
    requires x < U64_SIZE
    ensures Low(x) == x % 0x1_0000_0000 && High(x) == x / 0x1_0000_0000
  {
  }

  // One choice of the scheduler, of the network or of the world. A read is answered from memory as
  // it was at any moment since its request reached the front.
  datatype Step =
    | Register(address: nat, size: nat, value: u32, flagUpdated: bool)
    | Queue
    | FetchNext(sendOk: bool)
    | ReadAnswer(which: nat, moment: nat)
    | BarrierAnswer
    | Serve
    | WriteNext(sendOk: bool)
    | Notify(sendOk: bool)
    | MemoryWrite
    | MemoryChange(mem: nat -> u8)

  // Any run: steps that are not enabled are skipped, and memory may change at any time. Every answer
  // to a barrier that the log holds is one that the network gave.
  method Run(d: Device, steps: seq<Step>) returns (ghost answers: nat)
    requires d.Valid()
    modifies d, d.argData1, d.argData2
    ensures d.Valid()
    ensures |d.ledger.sent| <= |d.ledger.works| <= |Jobs(d.ledger)| <= |d.ledger.accepted|
    ensures forall i :: 0 <= i < |d.ledger.sent| ==> var (n, r) := (d.ledger.sent[i], d.ledger.accepted[i]);
      n.device == r.device && n.channel == r.channel && n.tag == r.tag
    ensures forall i :: 0 <= i < |Jobs(d.ledger)| ==> Jobs(d.ledger)[i].req == d.ledger.accepted[i]
    ensures forall i :: 0 <= i < |d.ledger.works| ==>
      WorkFor(Jobs(d.ledger)[i], d.ledger.works[i], d.history, d.service, d.cfg)
    ensures |d.ledger.accepted| == |d.ledger.sent| + |d.notifications| + |d.completed| + |d.ready| + |d.incoming|
    ensures |d.ledger.acceptedAt| == |d.ledger.accepted| && Stretches(d.ledger.acceptedAt, Jobs(d.ledger), d.fetchLog.from, |d.history|)
    ensures Takings(Jobs(d.ledger), d.ledger.works, d.ledger.taken, d.history)
    ensures AnswersNoted(d.ledger, d.writeLog) == old(AnswersNoted(d.ledger, d.writeLog)) + answers
    ensures answers <= |steps| && ((forall i :: 0 <= i < |steps| ==> !steps[i].BarrierAnswer?) ==> answers == 0)
  {
    hide FetchInv, WriteInv, LedgerInv, WorkFor, Stretches, Takings, FrontTakings, AnswersNoted;
    answers := 0;
    for i := 0 to |steps|
      invariant d.Valid() && answers <= i
      invariant AnswersNoted(d.ledger, d.writeLog) == old(AnswersNoted(d.ledger, d.writeLog)) + answers
      invariant (forall j :: 0 <= j < i ==> !steps[j].BarrierAnswer?) ==> answers == 0
    {
      var answered := OneStep(d, steps[i]);
      answers := if answered then answers + 1 else answers;
    }
    InOrder(d.ledger, d.incoming, d.ready, d.completed, d.notifications, d.history, d.service, d.cfg);
  }

  method OneStep(d: Device, step: Step) returns (answered: bool)
    requires d.Valid()
    modifies d, d.argData1, d.argData2
    ensures d.Valid()
    ensures answered ==> step.BarrierAnswer? && old(d.writeLog).barriersOut > 0
    ensures AnswersNoted(d.ledger, d.writeLog) == old(AnswersNoted(d.ledger, d.writeLog)) + if answered then 1 else 0
  {
    hide FetchInv, WriteInv, LedgerInv, Times, AnswersOf, AnswersIn, NextEvent;
    answered := false;
    match step
    case Register(address, size, value, flagUpdated) =>
      var _ := d.OnWriteRequest(address, size, value, flagUpdated);
    case Queue =>
      if d.queueEnabled {
        var _ := d.DoQueue();
      }
    case FetchNext(sendOk) =>
      if d.fetch.activations > 0 {
        var _ := d.DoArgumentFetch(sendOk);
      }
    case ReadAnswer(which, moment) =>
      if which < |d.fetchLog.outstanding| && d.fetchLog.from <= moment < |d.history| {
        var c := d.fetchLog.outstanding[which];
        var data := MemRange(d.history[moment], c.addr, c.size);
        MomentHeld(d.history, d.fetchLog.from, moment, c.addr, data);
        d.OnReadResponse(c.addr, data, which);
      }
    case BarrierAnswer =>
      if d.writeLog.barriersOut > 0 && |d.writeLog.moments| == |d.writeLog.work| - 1 {
        AnswersOneMore(d.writeLog.work, BarrierAnswered);
        d.OnBarrierResponse();
        answered := true;
      }
    case Serve =>
      if d.ready != [] {
        var _ := d.DoProcessRequests();
      }
    case WriteNext(sendOk) =>
      if d.wb.activations > 0 {
        WriteNextStep(d, sendOk);
      }
    case Notify(sendOk) =>
      if d.notifications != [] {
        var _ := d.DoSendCompletionNotifications(sendOk);
      }
    case MemoryWrite =>
      if |d.writeLog.moments| < |d.writeLog.work| && d.writeLog.work[|d.writeLog.moments|].Wrote? {
        d.OnMemoryWrite();
      }
    case MemoryChange(mem) =>
      d.MemoryBecomes(mem);
  }

  method WriteNextStep(d: Device, sendOk: bool)
    requires d.Valid() && d.wb.activations > 0
    modifies d
    ensures d.Valid() && AnswersNoted(d.ledger, d.writeLog) == old(AnswersNoted(d.ledger, d.writeLog))
  {
    hide FetchInv, WriteInv, LedgerInv, Times, AnswersOf, AnswersIn, NextEvent;
    ghost var work, works := d.writeLog.work, d.ledger.works;
    ghost var next := if d.completed == [] then None else NextEvent(d.completed[0], d.wb, d.cfg.line);
    if next.Some? {
      NoAnswerSent(d.completed[0], d.wb, d.cfg.line);
      AnswersOneMore(work, next.value);
    }
    AnswersMoved(works, work);
    var _ := d.DoWriteResponse(sendOk);
  }

  lemma NoAnswerSent(res: Response, w: Writeback, line: nat)
    requires line > 0
    ensures var next := NextEvent(res, w, line); next.Some? ==> !next.value.BarrierAnswered?
  {
  }

  lemma MomentHeld(history: seq<nat -> u8>, from: nat, moment: nat, address: nat, data: seq<u8>)
    requires from <= moment < |history| && data == MemRange(history[moment], address, |data|)
    ensures forall i :: 0 <= i < |data| ==> Held(Seen(history, from, |history|), address + i, data[i])
  {
    assert Seen(history, from, |history|)[moment - from] == history[moment];
  }

  // memcpy into an argument buffer
  method Store(buf: array<u8>, at: nat, data: seq<u8>, n: nat)
    requires n <= |data| && at + n <= buf.Length
    modifies buf
    ensures forall i :: 0 <= i < buf.Length ==> buf[i] == if at <= i < at + n then data[i - at] else old(buf[i])
  {
    for k := 0 to n
      invariant forall i :: 0 <= i < buf.Length ==> buf[i] == if at <= i < at + k then data[i - at] else old(buf[i])
    {
      buf[at + k] := data[k];
    }
  }

  lemma AreasFit(ar: Areas, f: Fetch, log: FetchLog, line: nat, seen: seq<nat -> u8>, d1: seq<u8>, d2: seq<u8>)
    requires line > 0 && FetchFront(ar, f, log, line, seen, d1, d2)
    ensures ar.size1 <= |d1| && ar.size2 <= |d2|
  {
  }

  // The pending count and activations do not matter to what the buffers hold.
  lemma SameFront(ar: Areas, f: Fetch, f': Fetch, log: FetchLog, line: nat, seen: seq<nat -> u8>, d1: seq<u8>, d2: seq<u8>)
    requires line > 0 && FetchFront(ar, f, log, line, seen, d1, d2) && f'.state == f.state && f'.off == f.off
    ensures FetchFront(ar, f', log, line, seen, d1, d2)
  {
    hide Fetched;
  }

  lemma WriteAwake(completed: seq<Response>, w: Writeback, log: WriteLog, line: nat)
    requires line > 0 && WriteInv(completed, w, log, line)
    ensures w.activations > 0 <==> completed != [] && log.barriersOut == 0
    ensures w.activations == 0 || w.activations == 1
  {
    hide BusWork, BusWorkLeft;
  }

  // The transfer the fetch registers ask for next.
  ghost function AskedNext(ar: Areas, f: Fetch, line: nat): seq<Chunk>
    requires line > 0
  {
    if f.state.Reading1? && f.off <= ar.size1 then NextRead(ar.base1, ar.size1, f.off, line)
    else if f.state.Reading2? && f.off <= ar.size2 then NextRead(ar.base2, ar.size2, f.off, line)
    else []
  }

  lemma FrontRegisters(ar: Areas, f: Fetch, log: FetchLog, line: nat, seen: seq<nat -> u8>, d1: seq<u8>, d2: seq<u8>)
    requires line > 0 && FetchFront(ar, f, log, line, seen, d1, d2)
    ensures f.state.Reading1? ==> f.off <= ar.size1
    ensures f.state.Reading2? ==> f.off <= ar.size2
  {
  }

  lemma NextReadIs(base: nat, total: nat, off: nat, line: nat)
    requires off <= total && line > 0
    ensures var n := TransferSize(total, base, off, line);
      && NextRead(base, total, off, line) == (if n > 0 then [Chunk(base + off, n)] else [])
      && (off < total ==> n > 0) && off + n <= total
  {
  }

  lemma ReadyIs(job: Job, p: ProcessRequest, history: seq<nat -> u8>, line: nat)
    requires line > 0 && ArgumentsFor(job, p.data1, p.data2, history, line)
    requires var req := job.req;
      p == ProcessRequest(req.procedure, req.extra1, req.extra2, req.device, req.res1, req.res2, req.tag, req.channel,
                          p.data1, p.data2)
    ensures ReadyFor(job, p, history, line)
  {
  }

  lemma NextFetch(incoming: seq<Request>, cfg: Config, history: seq<nat -> u8>, d1: seq<u8>, d2: seq<u8>)
    requires ConfigOk(cfg) && incoming != [] && AllSized(cfg, incoming) && |d1| == cfg.maxArg1 && |d2| == cfg.maxArg2
    requires history != []
    ensures FetchInv(incoming[1..], Fetch(Reading1, 0, 0, if |incoming| == 1 then 0 else 1), FetchLog([], [], d2, |history| - 1), cfg.line,
                     Seen(history, |history| - 1, |history|), d1, d2)
  {
    hide FetchFront, Seen;
    if |incoming| > 1 {
      assert incoming[1..][0] == incoming[1];
      FrontStarts(incoming[1].areas, cfg.line, Seen(history, |history| - 1, |history|), |history| - 1, d1, d2, Fetch(Reading1, 0, 0, 1));
    }
  }

  lemma QueueFetch(req: Request, incoming: seq<Request>, f: Fetch, log: FetchLog, cfg: Config, seen: seq<nat -> u8>,
                   history: seq<nat -> u8>, d1: seq<u8>, d2: seq<u8>)
    requires ConfigOk(cfg) && FetchInv(incoming, f, log, cfg.line, seen, d1, d2) && history != []
    requires Sized(cfg, req) && |d1| == cfg.maxArg1 && |d2| == cfg.maxArg2
    ensures if incoming == [] then
              FetchInv([req], f.(activations := f.activations + 1), log.(stale := d2, from := |history| - 1), cfg.line,
                       Seen(history, |history| - 1, |history|), d1, d2)
            else FetchInv(incoming + [req], f, log, cfg.line, seen, d1, d2)
  {
    hide FetchFront, Seen;
    if incoming == [] {
      FrontStarts(req.areas, cfg.line, Seen(history, |history| - 1, |history|), |history| - 1, d1, d2, f.(activations := f.activations + 1));
    }
  }
}
