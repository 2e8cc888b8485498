// arch/FPU.cpp: the execution units. Results sit in slots, oldest in front, and age until they are
// written back, one register in a cycle.
module FpuUnits {
  import opened Arith

  // An operation with its result: the source it came from, its first register, how many registers
  // the result fills, and its bits.
  datatype Op = Op(source: nat, address: nat, registers: nat, bits: nat)

  datatype Slot = Slot(op: Op, state: nat, index: nat)

  datatype Unit = Unit(latency: nat, pipelined: bool, slots: seq<Slot>)

  // ----- the bits of a result, register by register

  const REGISTER_RANGE: nat := 0x1_0000_0000

  function Word(bits: nat, index: nat): (w: nat)
    ensures w < REGISTER_RANGE
  {
    if index == 0 then bits % REGISTER_RANGE else Word(bits / REGISTER_RANGE, index - 1)
  }

  ghost function Range(registers: nat): (r: nat)
    ensures r > 0
  {
    if registers == 0 then 1 else REGISTER_RANGE * Range(registers - 1)
  }

  // The number that words make up, the first the lowest.
  ghost function Joined(words: seq<nat>): nat {
    if words == [] then 0 else words[0] + REGISTER_RANGE * Joined(words[1..])
  }

  ghost function Words(bits: nat, n: nat): (ws: seq<nat>)
    ensures |ws| == n
  {
    seq<nat>(n, i requires 0 <= i => Word(bits, i))
  }

  // Together the registers hold the result.
  lemma {:induction false} WordsHoldBits(bits: nat, n: nat)
    requires bits < Range(n)
    ensures Joined(Words(bits, n)) == bits
  {
    if n > 0 {
      var high := bits / REGISTER_RANGE;
      assert high < Range(n - 1);
      WordsHoldBits(high, n - 1);
      assert Words(bits, n)[1..] == Words(high, n - 1);
    }
  }

  // ----- what a unit may hold

  predicate Finished(u: Unit) {
    u.slots != [] && u.slots[0].state == u.latency
  }

  // Ages fall from front to back and stay within the latency; only a finished front result has
  // registers behind it; a unit that is not pipelined works on one operation.
  ghost predicate UnitOk(u: Unit) {
    && u.latency >= 1
    && (!u.pipelined ==> |u.slots| <= 1)
    && (forall i, j :: 0 <= i < j < |u.slots| ==> u.slots[j].state < u.slots[i].state)
    && (forall i :: 0 <= i < |u.slots| ==> 1 <= u.slots[i].state <= u.latency && u.slots[i].index < u.slots[i].op.registers)
    && (forall i :: 0 <= i < |u.slots| && u.slots[i].index > 0 ==> u.slots[i].state == u.latency)
  }

  // ----- a cycle of a unit

  function Older(slots: seq<Slot>): (r: seq<Slot>)
    ensures |r| == |slots| && forall i :: 0 <= i < |r| ==> r[i] == slots[i].(state := slots[i].state + 1)
  {
    seq(|slots|, i requires 0 <= i < |slots| => slots[i].(state := slots[i].state + 1))
  }

  // The front result has its last register left to write.
  predicate LastRegister(u: Unit)
    requires u.slots != []
  {
    u.slots[0].index + 1 == u.slots[0].op.registers
  }

  function NoFront(u: Unit): Unit
    requires u.slots != []
  {
    u.(slots := u.slots[1..])
  }

  function Aged(u: Unit): Unit {
    u.(slots := Older(u.slots))
  }

  function NextRegister(u: Unit): Unit
    requires u.slots != []
  {
    u.(slots := u.slots[0 := u.slots[0].(index := u.slots[0].index + 1)])
  }

  // Moves on by a cycle; ok says whether a finished result could be written.
  function Advanced(u: Unit, ok: bool): Unit {
    if !Finished(u) then Aged(u)
    else if !ok then u
    else if LastRegister(u) then Aged(NoFront(u))
    else NextRegister(u)
  }

  predicate CanAccept(u: Unit) {
    u.slots == [] || (u.pipelined && u.slots[|u.slots| - 1].state != 1)
  }

  function Accepted(u: Unit, op: Op): Unit {
    u.(slots := u.slots + [Slot(op, 1, 0)])
  }

  lemma AgedOk(u: Unit)
    requires UnitOk(u) && forall i :: 0 <= i < |u.slots| ==> u.slots[i].state < u.latency
    ensures UnitOk(Aged(u))
  {
  }

  lemma NoFrontOk(u: Unit)
    requires UnitOk(u) && Finished(u)
    ensures UnitOk(NoFront(u)) && forall i :: 0 <= i < |NoFront(u).slots| ==> NoFront(u).slots[i].state < u.latency
  {
  }

  lemma NextRegisterOk(u: Unit)
    requires UnitOk(u) && Finished(u) && !LastRegister(u)
    ensures UnitOk(NextRegister(u))
  {
  }

  lemma NoneFinished(u: Unit)
    requires UnitOk(u) && !Finished(u)
    ensures forall i :: 0 <= i < |u.slots| ==> u.slots[i].state < u.latency
  {
  }

  lemma AdvancedOk(u: Unit, ok: bool)
    requires UnitOk(u)
    ensures UnitOk(Advanced(u, ok))
  {
    hide UnitOk;
    if !Finished(u) {
      NoneFinished(u);
      AgedOk(u);
    } else if ok && LastRegister(u) {
      NoFrontOk(u);
      AgedOk(NoFront(u));
    } else if ok {
      NextRegisterOk(u);
    }
  }

  // One operation at most gets in before the unit moves on.
  lemma AcceptedOk(u: Unit, op: Op)
    requires UnitOk(u) && CanAccept(u) && op.registers > 0
    ensures UnitOk(Accepted(u, op)) && !CanAccept(Accepted(u, op))
  {
  }

  // ----- what a unit has done since the start

  datatype Write = Write(source: nat, address: nat, word: nat)

  function WriteOf(op: Op, index: nat): Write {
    Write(op.source, op.address + index, Word(op.bits, index))
  }

  // The first n registers of an operation, in ascending order.
  ghost function WritesOf(op: Op, n: nat): seq<Write> {
    seq(n, i requires 0 <= i => WriteOf(op, i))
  }

  // All registers of the first n operations.
  ghost function AllWrites(ops: seq<Op>, n: nat): seq<Write>
    requires n <= |ops|
  {
    if n == 0 then [] else AllWrites(ops, n - 1) + WritesOf(ops[n - 1], ops[n - 1].registers)
  }

  // Everything accepted, how many of it are complete, and everything written.
  datatype Log = Log(accepted: seq<Op>, completed: nat, written: seq<Write>)

  // Operations complete in the order they were accepted, each having written each of its registers
  // once; what is not complete is in the slots, and of the front one index registers are written.
  ghost predicate LogOk(u: Unit, l: Log) {
    && l.completed + |u.slots| == |l.accepted|
    && (forall i :: 0 <= i < |u.slots| ==> u.slots[i].op == l.accepted[l.completed + i])
    && (forall i :: 0 < i < |u.slots| ==> u.slots[i].index == 0)
    && l.written == AllWrites(l.accepted, l.completed) + if u.slots == [] then [] else WritesOf(u.slots[0].op, u.slots[0].index)
  }

  function AdvancedLog(u: Unit, l: Log, ok: bool): Log {
    if !Finished(u) || !ok then l
    else
      var s := u.slots[0];
      Log(l.accepted, if LastRegister(u) then l.completed + 1 else l.completed, l.written + [WriteOf(s.op, s.index)])
  }

  lemma OneMoreWrite(op: Op, n: nat)
    ensures WritesOf(op, n + 1) == WritesOf(op, n) + [WriteOf(op, n)]
  {
  }

  lemma AgedLogOk(u: Unit, l: Log)
    requires LogOk(u, l)
    ensures LogOk(Aged(u), l)
  {
  }

  lemma NoFrontLogOk(u: Unit, l: Log)
    requires LogOk(u, l) && Finished(u) && LastRegister(u)
    ensures LogOk(NoFront(u), AdvancedLog(u, l, true))
  {
    var s, before := u.slots[0], AllWrites(l.accepted, l.completed);
    OneMoreWrite(s.op, s.index);
    assert l.written + [WriteOf(s.op, s.index)] == before + WritesOf(s.op, s.index + 1);
    assert AllWrites(l.accepted, l.completed + 1) == before + WritesOf(s.op, s.op.registers);
    assert |u.slots| > 1 ==> WritesOf(u.slots[1].op, 0) == [];
  }

  lemma NextRegisterLogOk(u: Unit, l: Log)
    requires LogOk(u, l) && Finished(u) && !LastRegister(u)
    ensures LogOk(NextRegister(u), AdvancedLog(u, l, true))
  {
    var s, before := u.slots[0], AllWrites(l.accepted, l.completed);
    OneMoreWrite(s.op, s.index);
    assert l.written + [WriteOf(s.op, s.index)] == before + WritesOf(s.op, s.index + 1);
  }

  lemma AdvancedLogOk(u: Unit, l: Log, ok: bool)
    requires LogOk(u, l)
    ensures LogOk(Advanced(u, ok), AdvancedLog(u, l, ok))
  {
    hide LogOk;
    if !Finished(u) {
      AgedLogOk(u, l);
    } else if ok && LastRegister(u) {
      NoFrontLogOk(u, l);
      AgedLogOk(NoFront(u), AdvancedLog(u, l, true));
    } else if ok {
      NextRegisterLogOk(u, l);
    }
  }

  lemma {:induction false} AllWritesPrefix(ops: seq<Op>, more: seq<Op>, n: nat)
    requires n <= |ops|
    ensures AllWrites(ops + more, n) == AllWrites(ops, n)
  {
    if n > 0 {
      AllWritesPrefix(ops, more, n - 1);
    }
  }

  lemma AcceptedLogOk(u: Unit, l: Log, op: Op)
    requires LogOk(u, l)
    ensures LogOk(Accepted(u, op), l.(accepted := l.accepted + [op]))
  {
    AllWritesPrefix(l.accepted, [op], l.completed);
    assert WritesOf(op, 0) == [];
    assert AllWrites(l.accepted, l.completed) + [] == AllWrites(l.accepted, l.completed);
  }

  // ----- what is written, and when

  lemma {:induction false} WordIs(bits: nat, index: nat)
    ensures Word(bits, index) == bits / Range(index) % 0x1_0000_0000
  {
    if index > 0 {
      WordIs(bits / REGISTER_RANGE, index - 1);
      DivDiv(bits, REGISTER_RANGE, Range(index - 1));
    }
  }

  lemma DivDiv(x: nat, m: nat, n: nat)
    requires m > 0 && n > 0
    ensures m * n > 0 && x / m / n == x / (m * n)
  {
    var q, r, low := x / m / n, x / m % n, x % m;
    DivMod(x, m);
    DivMod(x / m, n);
    var high := x / m;
    assert x == high * m + low && high == q * n + r;
    Split(q, n, r, m);
    MulLe(r + 1, n, m);
    assert (r + 1) * m == r * m + m;
    ModUnique(x, q, r * m + low, m * n);
  }

  lemma Split(q: nat, n: nat, r: nat, m: nat)
    ensures (q * n + r) * m == q * (m * n) + r * m
  {
  }

  // How many registers the first n operations fill.
  ghost function Before(ops: seq<Op>, n: nat): nat
    requires n <= |ops|
  {
    if n == 0 then 0 else Before(ops, n - 1) + ops[n - 1].registers
  }

  lemma {:induction false} AllWritesAt(ops: seq<Op>, n: nat, m: nat, k: nat)
    requires n <= |ops|
    ensures |AllWrites(ops, n)| == Before(ops, n)
    ensures m < n && k < ops[m].registers ==>
      Before(ops, m) + k < Before(ops, n) && AllWrites(ops, n)[Before(ops, m) + k] == WriteOf(ops[m], k)
  {
    hide WriteOf;
    if n > 0 {
      AllWritesAt(ops, n - 1, m, k);
      assert |WritesOf(ops[n - 1], ops[n - 1].registers)| == ops[n - 1].registers;
    }
  }

  // The m-th operation that a unit has completed was written register by register, 32 bits to each, to
  // ascending registers of its source, behind those before it.
  lemma RegistersWritten(u: Unit, l: Log, m: nat, k: nat)
    requires LogOk(u, l) && m < l.completed && k < l.accepted[m].registers
    ensures Before(l.accepted, m) + k < |l.written|
    ensures var op, w := l.accepted[m], l.written[Before(l.accepted, m) + k];
      w.source == op.source && w.address == op.address + k && w.word == op.bits / Range(k) % 0x1_0000_0000
  {
    hide Word, AllWrites, WritesOf;
    AllWritesAt(l.accepted, l.completed, m, k);
    WordIs(l.accepted[m].bits, k);
  }

  // A unit after n cycles in which everything could be written.
  ghost function After(u: Unit, n: nat): Unit {
    if n == 0 then u else Advanced(After(u, n - 1), true)
  }

  // An operation alone in its unit is worked on for as many cycles as the latency says, and then leaves
  // it register by register.
  lemma {:induction false} OnTime(u: Unit, op: Op, n: nat)
    requires u.slots == [Slot(op, 1, 0)] && u.latency >= 1 && op.registers >= 1
    ensures After(u, n) == u.(slots :=
      if n < u.latency then [Slot(op, 1 + n, 0)]
      else if n < u.latency - 1 + op.registers then [Slot(op, u.latency, n - (u.latency - 1))]
      else [])
  {
    if n > 0 {
      OnTime(u, op, n - 1);
    }
  }

  // Operations that share a unit keep their distance: in a cycle all of them get one cycle older or,
  // while a result is written over several registers or cannot be written, none does.
  lemma KeepsDistance(u: Unit, ok: bool, i: nat)
    requires UnitOk(u) && i < |u.slots| && (i > 0 || !Finished(u) || !ok || u.slots[0].index + 1 < u.slots[0].op.registers)
    ensures var left := |u.slots| - |Advanced(u, ok).slots|;
      && left <= i
      && Advanced(u, ok).slots[i - left].op == u.slots[i].op
      && Advanced(u, ok).slots[i - left].state - u.slots[i].state ==
           if u.slots[0].state < u.latency || (ok && u.slots[0].index + 1 == u.slots[0].op.registers) then 1 else 0
  {
  }
}
