// arch/dev/RPC.cpp: the argument buffers while split-phase reads are in flight.
module RpcFetch {
  import opened Bits
  import opened RpcChunks

  // An argument area pair: [base1, base1 + size1) and [base2, base2 + size2).
  datatype Areas = Areas(base1: nat, size1: nat, base2: nat, size2: nat)

  predicate InArea1(ar: Areas, addr: nat) {
    ar.base1 <= addr < ar.base1 + ar.size1
  }

  predicate InArea2(ar: Areas, addr: nat) {
    ar.base2 <= addr < ar.base2 + ar.size2
  }

  // The response length after it was cut at the end of area 1. The same, already cut, length is
  // then used for area 2.
  function Cut1(ar: Areas, c: Chunk): nat {
    if InArea1(ar, c.addr) && c.addr + c.size >= ar.base1 + ar.size1 then ar.base1 + ar.size1 - c.addr else c.size
  }

  function Cut2(ar: Areas, c: Chunk): nat {
    if InArea2(ar, c.addr) && c.addr + Cut1(ar, c) >= ar.base2 + ar.size2 then ar.base2 + ar.size2 - c.addr else Cut1(ar, c)
  }

  // The addresses of area 1 (area 2) that a response to c stores.
  predicate Stores1(ar: Areas, c: Chunk, a: nat) {
    InArea1(ar, c.addr) && c.addr <= a < c.addr + Cut1(ar, c)
  }

  predicate Stores2(ar: Areas, c: Chunk, a: nat) {
    InArea2(ar, c.addr) && c.addr <= a < c.addr + Cut2(ar, c)
  }

  // A byte of area 2 that no response stores: its transfer starts inside area 1 and the byte lies
  // past the end of area 1. There are none if the areas are disjoint.
  predicate Lost(ar: Areas, a: nat, line: nat)
    requires line > 0
  {
    var s := ChunkStart(ar.base2, a, line);
    InArea2(ar, a) && InArea1(ar, s) && ar.base1 + ar.size1 <= a
  }

  // If any byte is lost, the first one past the end of area 1 is: the test a caller can make.
  lemma LostExactly(ar: Areas, line: nat)
    requires line > 0
    ensures (exists a: nat :: Lost(ar, a, line)) <==> Lost(ar, ar.base1 + ar.size1, line)
  {
    forall a: nat | Lost(ar, a, line)
      ensures Lost(ar, ar.base1 + ar.size1, line)
    {
      LostFirst(ar, a, line);
    }
  }

  lemma LostFirst(ar: Areas, a: nat, line: nat)
    requires line > 0 && Lost(ar, a, line)
    ensures Lost(ar, ar.base1 + ar.size1, line)
  {
    LineStartBetween(ar.base1 + ar.size1, a, line);
    hide LineStart;
  }

  // Such areas exist: the one transfer for [0, 16) is cut at the end of [0, 4).
  lemma SomeByteIsLost()
    ensures Lost(Areas(0, 4, 0, 16), 4, 64)
  {
  }

  lemma DisjointLosesNothing(ar: Areas, a: nat, line: nat)
    requires line > 0 && (ar.base1 + ar.size1 <= ar.base2 || ar.base2 + ar.size2 <= ar.base1)
    ensures !Lost(ar, a, line)
  {
  }

  // A transfer that was requested for one of the areas.
  ghost predicate For1(ar: Areas, c: Chunk) {
    InArea1(ar, c.addr) && c.addr + c.size <= ar.base1 + ar.size1
  }

  ghost predicate For2(ar: Areas, c: Chunk, line: nat)
    requires line > 0
  {
    && InArea2(ar, c.addr) && c.addr + c.size <= ar.base2 + ar.size2
    && forall a :: c.addr <= a < c.addr + c.size ==> ChunkStart(ar.base2, a, line) == c.addr
  }

  ghost predicate Requested(ar: Areas, cs: seq<Chunk>, line: nat)
    requires line > 0
  {
    forall j :: 0 <= j < |cs| ==> cs[j].size > 0 && (For1(ar, cs[j]) || For2(ar, cs[j], line))
  }

  ghost predicate Awaits1(ar: Areas, cs: seq<Chunk>, a: nat) {
    exists j :: 0 <= j < |cs| && Stores1(ar, cs[j], a)
  }

  ghost predicate Awaits2(ar: Areas, cs: seq<Chunk>, a: nat) {
    exists j :: 0 <= j < |cs| && Stores2(ar, cs[j], a)
  }

  // At one of the moments in seen, memory held v at a.
  ghost predicate Held(seen: seq<nat -> u8>, a: nat, v: u8) {
    exists k :: 0 <= k < |seen| && seen[k](a) == v
  }

  // With got1 and got2 bytes asked for and the responses to cs still out: every byte asked for is
  // in its buffer, as memory held it at some moment since the fetch began, or on its way, and a
  // lost byte is as it was when the fetch began.
  ghost predicate Fetched(ar: Areas, seen: seq<nat -> u8>, line: nat, got1: nat, got2: nat, cs: seq<Chunk>,
                          d1: seq<u8>, d2: seq<u8>, stale: seq<u8>)
    requires line > 0
  {
    && ar.size1 <= |d1| && ar.size2 <= |d2| == |stale|
    && got1 <= ar.size1 && got2 <= ar.size2
    && Requested(ar, cs, line)
    && (forall i :: 0 <= i < got1 ==> Held(seen, ar.base1 + i, d1[i]) || Awaits1(ar, cs, ar.base1 + i))
    && (forall i :: 0 <= i < got2 && !Lost(ar, ar.base2 + i, line) ==>
          Held(seen, ar.base2 + i, d2[i]) || Awaits2(ar, cs, ar.base2 + i))
    && (forall i :: 0 <= i < ar.size2 && Lost(ar, ar.base2 + i, line) ==> d2[i] == stale[i])
  }

  // The buffer after a response: what memory held where the response stores, unchanged elsewhere.
  ghost predicate Stored1(ar: Areas, seen: seq<nat -> u8>, c: Chunk, d: seq<u8>, d': seq<u8>) {
    |d'| == |d| && forall i :: 0 <= i < |d| ==>
      if Stores1(ar, c, ar.base1 + i) then Held(seen, ar.base1 + i, d'[i]) else d'[i] == d[i]
  }

  ghost predicate Stored2(ar: Areas, seen: seq<nat -> u8>, c: Chunk, d: seq<u8>, d': seq<u8>) {
    |d'| == |d| && forall i :: 0 <= i < |d| ==>
      if Stores2(ar, c, ar.base2 + i) then Held(seen, ar.base2 + i, d'[i]) else d'[i] == d[i]
  }

  function Without(cs: seq<Chunk>, j: nat): (rest: seq<Chunk>)
    requires j < |cs|
    ensures |rest| == |cs| - 1
  {
    cs[..j] + cs[j + 1..]
  }

  lemma WithoutKeeps(cs: seq<Chunk>, j: nat, k: nat)
    requires j < |cs| && k < |cs| && k != j
    ensures cs[k] in Without(cs, j)
  {
    if k < j {
      assert Without(cs, j)[k] == cs[k];
    } else {
      assert Without(cs, j)[k - 1] == cs[k];
    }
  }

  // Any response, in any order, keeps the promise.
  lemma RespondKeeps(ar: Areas, seen: seq<nat -> u8>, line: nat, got1: nat, got2: nat, cs: seq<Chunk>, j: nat,
                     d1: seq<u8>, d2: seq<u8>, d1': seq<u8>, d2': seq<u8>, stale: seq<u8>)
    requires line > 0 && j < |cs| && Fetched(ar, seen, line, got1, got2, cs, d1, d2, stale)
    requires Stored1(ar, seen, cs[j], d1, d1') && Stored2(ar, seen, cs[j], d2, d2')
    ensures Fetched(ar, seen, line, got1, got2, Without(cs, j), d1', d2', stale)
  {
    hide ChunkStart, Lost, For1, For2;
    var rest := Without(cs, j);
    forall i | 0 <= i < got1
      ensures Held(seen, ar.base1 + i, d1'[i]) || Awaits1(ar, rest, ar.base1 + i)
    {
      if !Held(seen, ar.base1 + i, d1'[i]) {
        var k :| 0 <= k < |cs| && Stores1(ar, cs[k], ar.base1 + i);
        WithoutKeeps(cs, j, k);
      }
    }
    forall i | 0 <= i < got2 && !Lost(ar, ar.base2 + i, line)
      ensures Held(seen, ar.base2 + i, d2'[i]) || Awaits2(ar, rest, ar.base2 + i)
    {
      if !Held(seen, ar.base2 + i, d2'[i]) {
        var k :| 0 <= k < |cs| && Stores2(ar, cs[k], ar.base2 + i);
        WithoutKeeps(cs, j, k);
      }
    }
    forall i | 0 <= i < ar.size2 && Lost(ar, ar.base2 + i, line)
      ensures d2'[i] == stale[i]
    {
      LostIsNotStored(ar, cs[j], ar.base2 + i, line);
    }
  }

  lemma LostIsNotStored(ar: Areas, c: Chunk, a: nat, line: nat)
    requires line > 0 && Lost(ar, a, line) && (For1(ar, c) || For2(ar, c, line))
    ensures !Stores2(ar, c, a)
  {
  }

  // Memory may change at any time.
  lemma MemoryChangeKeeps(ar: Areas, seen: seq<nat -> u8>, m: nat -> u8, line: nat, got1: nat, got2: nat, cs: seq<Chunk>,
                          d1: seq<u8>, d2: seq<u8>, stale: seq<u8>)
    requires line > 0 && Fetched(ar, seen, line, got1, got2, cs, d1, d2, stale)
    ensures Fetched(ar, seen + [m], line, got1, got2, cs, d1, d2, stale)
  {
    hide Lost, Stores1, Stores2, Requested;
    forall a: nat, v: u8 | Held(seen, a, v)
      ensures Held(seen + [m], a, v)
    {
      var k :| 0 <= k < |seen| && seen[k](a) == v;
      assert (seen + [m])[k](a) == v;
    }
  }

  // Asking for the next transfer of area 1, or of area 2, keeps it too.
  lemma Issue1Keeps(ar: Areas, seen: seq<nat -> u8>, line: nat, got1: nat, cs: seq<Chunk>, n: nat,
                    d1: seq<u8>, d2: seq<u8>, stale: seq<u8>)
    requires line > 0 && Fetched(ar, seen, line, got1, 0, cs, d1, d2, stale)
    requires 0 < n && got1 + n <= ar.size1
    ensures Fetched(ar, seen, line, got1 + n, 0, cs + [Chunk(ar.base1 + got1, n)], d1, d2, stale)
  {
    hide ChunkStart, Lost, For2;
    var c := Chunk(ar.base1 + got1, n);
    var all := cs + [c];
    assert all[|cs|] == c && forall k :: 0 <= k < |cs| ==> all[k] == cs[k];
    forall i | 0 <= i < got1 + n
      ensures Held(seen, ar.base1 + i, d1[i]) || Awaits1(ar, all, ar.base1 + i)
    {
      if i >= got1 {
        assert Stores1(ar, all[|cs|], ar.base1 + i);
      } else if !Held(seen, ar.base1 + i, d1[i]) {
        var k :| 0 <= k < |cs| && Stores1(ar, cs[k], ar.base1 + i);
        assert Stores1(ar, all[k], ar.base1 + i);
      }
    }
  }

  lemma AwaitsMore(ar: Areas, cs: seq<Chunk>, c: Chunk, a: nat)
    ensures Awaits1(ar, cs, a) ==> Awaits1(ar, cs + [c], a)
    ensures Awaits2(ar, cs, a) || Stores2(ar, c, a) ==> Awaits2(ar, cs + [c], a)
  {
    hide Stores1, Stores2;
    var all := cs + [c];
    assert all[|cs|] == c && forall k :: 0 <= k < |cs| ==> all[k] == cs[k];
    if Awaits1(ar, cs, a) {
      var k :| 0 <= k < |cs| && Stores1(ar, cs[k], a);
      assert Stores1(ar, all[k], a);
    }
    if Awaits2(ar, cs, a) {
      var k :| 0 <= k < |cs| && Stores2(ar, cs[k], a);
      assert Stores2(ar, all[k], a);
    }
  }

  // The next transfer of area 2 is one that was planned, and stores what it asks for unless lost.
  lemma NextFor2(ar: Areas, got2: nat, line: nat)
    requires line > 0 && got2 < ar.size2 && (got2 == 0 || (ar.base2 + got2) % line == 0)
    ensures var n := TransferSize(ar.size2, ar.base2, got2, line);
      var c := Chunk(ar.base2 + got2, n);
      && n > 0 && got2 + n <= ar.size2 && For2(ar, c, line)
      && forall a :: c.addr <= a < c.addr + n && !Lost(ar, a, line) ==> Stores2(ar, c, a)
  {
    hide ChunkStart;
    var n := TransferSize(ar.size2, ar.base2, got2, line);
    forall a | ar.base2 + got2 <= a < ar.base2 + got2 + n
      ensures ChunkStart(ar.base2, a, line) == ar.base2 + got2
    {
      ChunkStartIs(ar.size2, ar.base2, got2, line, a);
    }
    forall a | ar.base2 + got2 <= a < ar.base2 + got2 + n && !Lost(ar, a, line)
      ensures Stores2(ar, Chunk(ar.base2 + got2, n), a)
    {
      ChunkStartIs(ar.size2, ar.base2, got2, line, a);
    }
  }

  lemma Issue2Keeps(ar: Areas, seen: seq<nat -> u8>, line: nat, got2: nat, cs: seq<Chunk>,
                    d1: seq<u8>, d2: seq<u8>, stale: seq<u8>)
    requires line > 0 && Fetched(ar, seen, line, ar.size1, got2, cs, d1, d2, stale)
    requires got2 < ar.size2 && (got2 == 0 || (ar.base2 + got2) % line == 0)
    ensures var n := TransferSize(ar.size2, ar.base2, got2, line);
      Fetched(ar, seen, line, ar.size1, got2 + n, cs + [Chunk(ar.base2 + got2, n)], d1, d2, stale)
  {
    hide For1, For2, Lost, Held, Awaits1, Awaits2, Stores2, TransferSize;
    NextFor2(ar, got2, line);
    var n := TransferSize(ar.size2, ar.base2, got2, line);
    var c := Chunk(ar.base2 + got2, n);
    var all := cs + [c];
    forall i | 0 <= i < ar.size1
      ensures Held(seen, ar.base1 + i, d1[i]) || Awaits1(ar, all, ar.base1 + i)
    {
      AwaitsMore(ar, cs, c, ar.base1 + i);
    }
    forall i | 0 <= i < got2 + n && !Lost(ar, ar.base2 + i, line)
      ensures Held(seen, ar.base2 + i, d2[i]) || Awaits2(ar, all, ar.base2 + i)
    {
      AwaitsMore(ar, cs, c, ar.base2 + i);
    }
  }

  // What the two buffers hold once everything was asked for and answered.
  lemma AllFetched(ar: Areas, seen: seq<nat -> u8>, line: nat, d1: seq<u8>, d2: seq<u8>, stale: seq<u8>)
    requires line > 0 && Fetched(ar, seen, line, ar.size1, ar.size2, [], d1, d2, stale)
    ensures forall i :: 0 <= i < ar.size1 ==> Held(seen, ar.base1 + i, d1[i])
    ensures forall i :: 0 <= i < ar.size2 ==>
      if Lost(ar, ar.base2 + i, line) then d2[i] == stale[i] else Held(seen, ar.base2 + i, d2[i])
  {
    hide Lost;
  }
}
