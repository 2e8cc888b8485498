// sim/flag.*, sim/register.hpp, sim/buffer.hpp, sim/linkedlist.hpp: the storages of the simulator.
// Operations in a cycle only record what is asked for; Update makes all of it happen between
// cycles and tells the sensitive process when the storage fills or drains.
module TwoPhase {
  import opened Options

  const MAX_PUSHES := 4

  // ----- what a storage is, seen from outside: what it holds now and what this cycle asks of it

  datatype Storage<T> =
    | Flag(isSet: bool, wanted: bool, updated: bool)
    | Register(cur: Option<T>, written: Option<T>, cleared: bool)
    | Buffer(data: seq<T>, pushes: seq<T>, popped: bool, maxSize: Option<nat>, maxPushes: nat)
    | List(items: seq<T>, appended: seq<T>, popped: bool)

  predicate Occupied<T>(s: Storage<T>) {
    match s
    case Flag(isSet, _, _) => isSet
    case Register(cur, _, _) => cur.Some?
    case Buffer(data, _, _, _, _) => data != []
    case List(items, _, _) => items != []
  }

  // Some change waits for the end of the cycle.
  predicate Pending<T>(s: Storage<T>) {
    match s
    case Flag(isSet, wanted, updated) => updated || wanted != isSet
    case Register(_, written, cleared) => written.Some? || cleared
    case Buffer(_, pushes, popped, _, _) => pushes != [] || popped
    case List(_, appended, popped) => appended != [] || popped
  }

  // What holds between any two operations.
  predicate Legal<T>(s: Storage<T>) {
    match s
    case Flag(_, _, _) => true
    case Register(cur, _, cleared) => cleared ==> cur.Some?
    case Buffer(data, pushes, popped, maxSize, maxPushes) =>
      && (popped ==> data != [])
      && |pushes| <= maxPushes <= MAX_PUSHES
      && (maxSize.Some? ==> |data| + |pushes| <= maxSize.value)
    case List(items, _, popped) => popped ==> items != []
  }

  // ----- the requests of a cycle

  datatype Request<T> = SetFlag | ClearFlag | Write(value: T) | Clear | Push(item: T, minSpace: nat) | Append(chain: seq<T>) | Pop

  // The assertions of the source at the head of each operation.
  predicate Allowed<T>(s: Storage<T>, r: Request<T>) {
    match r
    case SetFlag => s.Flag?
    case ClearFlag => s.Flag?
    case Write(_) => s.Register? && s.written.None?
    case Clear => s.Register? && !s.cleared && s.cur.Some?
    case Push(_, minSpace) => s.Buffer? && minSpace >= 1 && (s.maxPushes != 1 ==> |s.pushes| < s.maxPushes)
    case Append(chain) => s.List? && s.appended == [] && chain != []
    case Pop => (s.Buffer? && !s.popped && s.data != []) || (s.List? && !s.popped && s.items != [])
  }

  // Whether the operation reports success, in which case it takes effect.
  predicate Accepted<T>(s: Storage<T>, r: Request<T>)
    requires Allowed(s, r)
  {
    match r
    case SetFlag => !s.updated
    case ClearFlag => !s.updated
    case Push(_, minSpace) =>
      && !(s.maxPushes == 1 && |s.pushes| == 1)
      && (s.maxSize.Some? ==> |s.data| + |s.pushes| + minSpace <= s.maxSize.value)
    case _ => true
  }

  function Requested<T>(s: Storage<T>, r: Request<T>): Storage<T>
    requires Allowed(s, r) && Accepted(s, r)
  {
    match r
    case SetFlag => s.(wanted := true, updated := true)
    case ClearFlag => s.(wanted := false, updated := true)
    case Write(value) => s.(written := Some(value))
    case Clear => s.(cleared := true)
    case Push(item, _) => s.(pushes := s.pushes + [item])
    case Append(chain) => s.(appended := chain)
    case Pop => if s.Buffer? then Buffer(s.data, s.pushes, true, s.maxSize, s.maxPushes) else List(s.items, s.appended, true)
  }

  // The operations themselves: Flag::Set and Clear, Register::Write and Clear, Buffer::Push and Pop,
  // LinkedList::Append and Pop.
  method Perform<T>(s: Storage<T>, r: Request<T>) returns (ok: bool, s': Storage<T>)
    requires Allowed(s, r)
    ensures ok == Accepted(s, r) && s' == if ok then Requested(s, r) else s
  {
    ok, s' := true, s;
    match r
    case SetFlag =>
      if s.updated {
        ok := false;
      } else {
        s' := s.(wanted := true, updated := true);
      }
    case ClearFlag =>
      if s.updated {
        ok := false;
      } else {
        s' := s.(wanted := false, updated := true);
      }
    case Write(value) =>
      s' := s.(written := Some(value));
    case Clear =>
      s' := s.(cleared := true);
    case Push(item, minSpace) =>
      if s.maxPushes == 1 && |s.pushes| == 1 {
        ok := false;  // already pushed, perhaps from another clock domain
      } else if s.maxSize.None? || |s.data| + |s.pushes| + minSpace <= s.maxSize.value {
        s' := s.(pushes := s.pushes + [item]);
      } else {
        ok := false;
      }
    case Append(chain) =>
      s' := s.(appended := chain);
    case Pop =>
      if s.Buffer? {
        s' := Buffer(s.data, s.pushes, true, s.maxSize, s.maxPushes);
      } else {
        s' := List(s.items, s.appended, true);
      }
  }

  lemma RequestedIsLegal<T>(s: Storage<T>, r: Request<T>)
    requires Legal(s) && Allowed(s, r) && Accepted(s, r)
    ensures Legal(Requested(s, r)) && Pending(Requested(s, r))
    ensures Occupied(Requested(s, r)) == Occupied(s)
  {
  }

  // ----- the update between cycles

  function Updated<T>(s: Storage<T>): Storage<T> {
    match s
    case Flag(_, wanted, _) => Flag(wanted, wanted, false)
    case Register(cur, written, cleared) => Register(if written.Some? then written else if cleared then None else cur, None, false)
    case Buffer(data, pushes, popped, maxSize, maxPushes) =>
      Buffer(if popped && data != [] then data[1..] + pushes else data + pushes, [], false, maxSize, maxPushes)
    case List(items, appended, popped) =>
      List(if popped && items != [] then items[1..] + appended else items + appended, [], false)
  }

  lemma UpdatedIsLegal<T>(s: Storage<T>)
    requires Legal(s)
    ensures Legal(Updated(s)) && !Pending(Updated(s))
  {
  }

  // ----- what the operations of a cycle come to, in terms of the operations alone

  // The storage after the first n operations of a cycle. One whose assertions do not hold is not made,
  // and a refused one changes nothing.
  function Asked<T>(s: Storage<T>, rs: seq<Request<T>>, n: nat): Storage<T>
    requires n <= |rs|
  {
    if n == 0 then s
    else
      var before := Asked(s, rs, n - 1);
      if Allowed(before, rs[n - 1]) && Accepted(before, rs[n - 1]) then Requested(before, rs[n - 1]) else before
  }

  // A flag is what the first operation of the cycle makes it; any other operation is refused.
  lemma {:induction false} FlagCycle<T>(isSet: bool, rs: seq<Request<T>>, n: nat)
    requires n <= |rs| && forall k :: 0 <= k < |rs| ==> rs[k].SetFlag? || rs[k].ClearFlag?
    ensures forall r: Request<T> :: r.SetFlag? || r.ClearFlag? ==>
      Allowed(Asked(Flag(isSet, isSet, false), rs, n), r) && (Accepted(Asked(Flag(isSet, isSet, false), rs, n), r) <==> n == 0)
    ensures Updated(Asked(Flag(isSet, isSet, false), rs, n)) ==
      if n == 0 then Flag(isSet, isSet, false) else Flag(rs[0].SetFlag?, rs[0].SetFlag?, false)
  {
    if n > 0 {
      FlagCycle(isSet, rs, n - 1);
      RefusedFlag(isSet, rs, n - 1);
    }
  }

  lemma RefusedFlag<T>(isSet: bool, rs: seq<Request<T>>, n: nat)
    requires n < |rs|
    requires Allowed(Asked(Flag(isSet, isSet, false), rs, n), rs[n])
    requires Accepted(Asked(Flag(isSet, isSet, false), rs, n), rs[n]) <==> n == 0
    ensures n > 0 ==> Asked(Flag(isSet, isSet, false), rs, n + 1) == Asked(Flag(isSet, isSet, false), rs, n)
    ensures n == 0 ==> Asked(Flag(isSet, isSet, false), rs, 1) == Requested(Flag(isSet, isSet, false), rs[0])
  {
  }

  // A register holds what was written, whether it was cleared as well or not; after a clear alone it is
  // empty. It is written and cleared once at most, and cleared only when it holds something.
  lemma {:induction false} RegisterCycle<T>(cur: Option<T>, rs: seq<Request<T>>, n: nat)
    requires n <= |rs| && forall k :: 0 <= k < |rs| ==> rs[k].Write? || rs[k].Clear?
    ensures var s := Asked(Register(cur, None, false), rs, n);
      && s == Register(cur, FirstWrite(rs, n), cur.Some? && Clears(rs, n))
      && (forall v: T :: Allowed(s, Write(v)) <==> FirstWrite(rs, n).None?)
      && (Allowed(s, Clear) <==> cur.Some? && !Clears(rs, n))
      && (forall r :: Allowed(s, r) ==> Accepted(s, r))
    ensures Updated(Asked(Register(cur, None, false), rs, n)) ==
      Register(if FirstWrite(rs, n).Some? then FirstWrite(rs, n) else if Clears(rs, n) then None else cur, None, false)
  {
    if n > 0 {
      RegisterCycle(cur, rs, n - 1);
    }
  }

  ghost function FirstWrite<T>(rs: seq<Request<T>>, n: nat): Option<T>
    requires n <= |rs|
  {
    if n == 0 then None
    else if FirstWrite(rs, n - 1).Some? then FirstWrite(rs, n - 1)
    else if rs[n - 1].Write? then Some(rs[n - 1].value)
    else None
  }

  ghost predicate Clears<T>(rs: seq<Request<T>>, n: nat)
    requires n <= |rs|
  {
    exists k :: 0 <= k < n && rs[k].Clear?
  }

  // A list loses its head if it was popped, and gains the chain that was appended, in whatever order.
  lemma {:induction false} ListCycle<T>(items: seq<T>, rs: seq<Request<T>>, n: nat)
    requires n <= |rs| && forall k :: 0 <= k < |rs| ==> rs[k].Pop? || (rs[k].Append? && rs[k].chain != [])
    ensures var s := Asked(List(items, [], false), rs, n);
      && s == List(items, FirstChain(rs, n), items != [] && Pops(rs, n))
      && (forall chain: seq<T> :: chain != [] ==> (Allowed(s, Append(chain)) <==> FirstChain(rs, n) == []))
      && (Allowed(s, Pop) <==> items != [] && !Pops(rs, n))
      && (forall r :: Allowed(s, r) ==> Accepted(s, r))
    ensures Updated(Asked(List(items, [], false), rs, n)) ==
      List((if items != [] && Pops(rs, n) then items[1..] else items) + FirstChain(rs, n), [], false)
  {
    if n > 0 {
      ListCycle(items, rs, n - 1);
    }
  }

  ghost function FirstChain<T>(rs: seq<Request<T>>, n: nat): seq<T>
    requires n <= |rs|
  {
    if n == 0 then []
    else if FirstChain(rs, n - 1) != [] then FirstChain(rs, n - 1)
    else if rs[n - 1].Append? then rs[n - 1].chain
    else []
  }

  ghost predicate Pops<T>(rs: seq<Request<T>>, n: nat)
    requires n <= |rs|
  {
    exists k :: 0 <= k < n && rs[k].Pop?
  }

  // A buffer loses its front if it was popped, and gains the items that were taken. A push is taken
  // exactly if there are as many places left as it wants, besides those already taken, and fewer than
  // the most for a cycle have been.
  lemma {:induction false} BufferCycle<T>(data: seq<T>, maxSize: Option<nat>, maxPushes: nat, rs: seq<Request<T>>, n: nat)
    requires n <= |rs| && forall k :: 0 <= k < |rs| ==> rs[k].Pop? || (rs[k].Push? && rs[k].minSpace >= 1)
    ensures var s, taken := Asked(Buffer(data, [], false, maxSize, maxPushes), rs, n), Taken(data, maxSize, maxPushes, rs, n);
      && s == Buffer(data, taken, data != [] && Pops(rs, n), maxSize, maxPushes)
      && (forall item: T, minSpace: nat :: minSpace >= 1 ==>
            (Allowed(s, Push(item, minSpace)) <==> |taken| < maxPushes || maxPushes == 1)
            && (Allowed(s, Push(item, minSpace)) ==>
                  (Accepted(s, Push(item, minSpace)) <==> IsRoom(data, maxSize, maxPushes, taken, minSpace))))
      && (Allowed(s, Pop) <==> data != [] && !Pops(rs, n)) && (Allowed(s, Pop) ==> Accepted(s, Pop))
    ensures Updated(Asked(Buffer(data, [], false, maxSize, maxPushes), rs, n)) ==
      Buffer((if data != [] && Pops(rs, n) then data[1..] else data) + Taken(data, maxSize, maxPushes, rs, n), [], false, maxSize, maxPushes)
  {
    if n > 0 {
      BufferCycle(data, maxSize, maxPushes, rs, n - 1);
    }
  }

  ghost predicate IsRoom<T>(data: seq<T>, maxSize: Option<nat>, maxPushes: nat, taken: seq<T>, minSpace: nat) {
    |taken| < maxPushes && (maxSize.Some? ==> |data| + |taken| + minSpace <= maxSize.value)
  }

  ghost function Taken<T>(data: seq<T>, maxSize: Option<nat>, maxPushes: nat, rs: seq<Request<T>>, n: nat): (taken: seq<T>)
    requires n <= |rs|
    ensures |taken| <= maxPushes
  {
    if n == 0 then []
    else
      var taken := Taken(data, maxSize, maxPushes, rs, n - 1);
      if rs[n - 1].Push? && IsRoom(data, maxSize, maxPushes, taken, rs[n - 1].minSpace) then taken + [rs[n - 1].item] else taken
  }

  // ----- a buffer over any run of requests and updates

  datatype Event<T> = Ask(request: Request<T>) | Tick

  // The buffer, everything it accepted and everything popped from it.
  datatype History<T> = History(buffer: Storage<T>, accepted: seq<T>, popped: seq<T>)

  ghost function Happened<T>(h: History<T>, e: Event<T>): History<T>
    requires h.buffer.Buffer?
  {
    match e
    case Tick => h.(buffer := Updated(h.buffer))
    case Ask(r) =>
      if !Allowed(h.buffer, r) || !Accepted(h.buffer, r) then h
      else if r.Push? then History(Requested(h.buffer, r), h.accepted + [r.item], h.popped)
      else History(Requested(h.buffer, r), h.accepted, h.popped + [h.buffer.data[0]])
  }

  ghost function Story<T>(maxSize: Option<nat>, maxPushes: nat, events: seq<Event<T>>, n: nat): (h: History<T>)
    requires n <= |events|
    ensures h.buffer.Buffer?
  {
    if n == 0 then History(Buffer([], [], false, maxSize, maxPushes), [], [])
    else Happened(Story(maxSize, maxPushes, events, n - 1), events[n - 1])
  }

  // First in, first out, nothing lost or doubled, and never more than fits.
  ghost predicate Fifo<T>(h: History<T>) {
    && h.buffer.Buffer? && Legal(h.buffer)
    && h.accepted == h.popped + (if h.buffer.popped then h.buffer.data[1..] else h.buffer.data) + h.buffer.pushes
  }

  lemma HappenedFifo<T>(h: History<T>, e: Event<T>)
    requires Fifo(h)
    ensures Fifo(Happened(h, e))
  {
    match e {
      case Tick => TickFifo(h);
      case Ask(r) =>
        if Allowed(h.buffer, r) && Accepted(h.buffer, r) {
          if r.Push? {
            PushFifo(h, r);
          } else {
            PopFifo(h, r);
          }
        }
    }
  }

  lemma TickFifo<T>(h: History<T>)
    requires Fifo(h)
    ensures Fifo(Happened(h, Tick))
  {
    var b := h.buffer;
    var staying := if b.popped then b.data[1..] else b.data;
    assert Updated(b) == Buffer(staying + b.pushes, [], false, b.maxSize, b.maxPushes);
    assert h.popped + staying + b.pushes == h.popped + (staying + b.pushes) + [];
  }

  lemma PushFifo<T>(h: History<T>, r: Request<T>)
    requires Fifo(h) && r.Push? && Allowed(h.buffer, r) && Accepted(h.buffer, r)
    ensures Fifo(Happened(h, Ask(r)))
  {
    hide Legal, Pending;
    RequestedIsLegal(h.buffer, r);
    assert Requested(h.buffer, r) == h.buffer.(pushes := h.buffer.pushes + [r.item]);
  }

  lemma PopFifo<T>(h: History<T>, r: Request<T>)
    requires Fifo(h) && !r.Push? && Allowed(h.buffer, r) && Accepted(h.buffer, r)
    ensures Fifo(Happened(h, Ask(r)))
  {
    hide Legal, Pending;
    RequestedIsLegal(h.buffer, r);
    var data := h.buffer.data;
    assert data == [data[0]] + data[1..];
    assert h.popped + data == h.popped + [data[0]] + data[1..];
  }

  lemma {:induction false} StoryIsFifo<T>(maxSize: Option<nat>, maxPushes: nat, events: seq<Event<T>>, n: nat)
    requires n <= |events| && maxPushes <= MAX_PUSHES
    ensures Fifo(Story(maxSize, maxPushes, events, n)) && Story(maxSize, maxPushes, events, n).buffer.maxSize == maxSize
  {
    if n > 0 {
      StoryIsFifo(maxSize, maxPushes, events, n - 1);
      hide Fifo, Legal;
      HappenedFifo(Story(maxSize, maxPushes, events, n - 1), events[n - 1]);
    }
  }

  // What is popped is a prefix of what was accepted, and the rest never outgrows the buffer.
  lemma BufferIsFifo<T>(maxSize: Option<nat>, maxPushes: nat, events: seq<Event<T>>, n: nat)
    requires n <= |events| && maxPushes <= MAX_PUSHES
    ensures var h := Story(maxSize, maxPushes, events, n);
      h.popped <= h.accepted && (maxSize.Some? ==> |h.buffer.data| + |h.buffer.pushes| <= maxSize.value)
  {
    StoryIsFifo(maxSize, maxPushes, events, n);
    hide Story;
  }
}
