// arch/VirtualMemory.cpp: memory that is allocated in blocks as it is written, and reads as zero
// where nothing was.
module SparseMemory {
  import opened Arith
  import opened Bits
  import opened Options
  import opened OrderedKeys

  const BLOCK_SIZE := 4096

  type Blocks = map<nat, seq<u8>>

  // Blocks are full and aligned.
  ghost predicate WellFormed(blocks: Blocks) {
    forall b :: b in blocks ==> b % BLOCK_SIZE == 0 && |blocks[b]| == BLOCK_SIZE
  }

  function BaseOf(a: nat): nat {
    a - a % BLOCK_SIZE
  }

  // ----- the flat memory that the blocks stand for

  ghost function ByteAt(blocks: Blocks, a: nat): u8
    requires WellFormed(blocks)
  {
    if BaseOf(a) in blocks then blocks[BaseOf(a)][a % BLOCK_SIZE] else 0
  }

  ghost function Flat(blocks: Blocks, a: nat, size: nat): (r: seq<u8>)
    requires WellFormed(blocks)
    ensures |r| == size && forall i :: 0 <= i < size ==> r[i] == ByteAt(blocks, a + i)
  {
    seq<u8>(size, i requires 0 <= i => ByteAt(blocks, a + i))
  }

  function Zeros(n: nat): (r: seq<u8>)
    ensures |r| == n && forall i :: 0 <= i < n ==> r[i] == 0
  {
    seq<u8>(n, i => 0)
  }

  // ----- reading

  // What Read does from a block on: each part is as long as a whole block, wherever in its block it
  // starts. None when it would run past the end of a block.
  ghost function ReadFrom(blocks: Blocks, base: nat, offset: nat, size: nat): Option<seq<u8>>
    requires WellFormed(blocks)
    decreases size
  {
    var count := if size <= BLOCK_SIZE then size else BLOCK_SIZE;
    if size == 0 then Some([])
    else if forall b :: b in blocks ==> b < base then Some(Zeros(size))
    else if base !in blocks then Then(Zeros(count), ReadFrom(blocks, base + BLOCK_SIZE, 0, size - count))
    else if offset + count > BLOCK_SIZE then None
    else Then(blocks[base][offset..offset + count], ReadFrom(blocks, base + BLOCK_SIZE, 0, size - count))
  }

  function Then(part: seq<u8>, more: Option<seq<u8>>): Option<seq<u8>> {
    if more.None? then None else Some(part + more.value)
  }

  // A read that starts on a block boundary or stays inside one block.
  predicate InStep(a: nat, size: nat) {
    a % BLOCK_SIZE == 0 || a % BLOCK_SIZE + size <= BLOCK_SIZE
  }

  lemma InBlock(base: nat, i: nat)
    requires base % BLOCK_SIZE == 0 && i < BLOCK_SIZE
    ensures BaseOf(base + i) == base && (base + i) % BLOCK_SIZE == i && (base + BLOCK_SIZE) % BLOCK_SIZE == 0
  {
  }

  lemma BaseNotBelow(base: nat, i: nat)
    requires base % BLOCK_SIZE == 0
    ensures BaseOf(base + i) >= base
  {
  }

  // One block's worth of flat memory.
  lemma FlatBlock(blocks: Blocks, base: nat, offset: nat, count: nat)
    requires WellFormed(blocks) && base % BLOCK_SIZE == 0 && offset + count <= BLOCK_SIZE
    ensures Flat(blocks, base + offset, count) == if base in blocks then blocks[base][offset..offset + count] else Zeros(count)
  {
    var flat := Flat(blocks, base + offset, count);
    forall i | 0 <= i < count
      ensures flat[i] == if base in blocks then blocks[base][offset..offset + count][i] else 0
    {
      InBlock(base, offset + i);
      assert base + offset + i == base + (offset + i);
    }
  }

  lemma FlatSplit(blocks: Blocks, a: nat, n: nat, m: nat)
    requires WellFormed(blocks)
    ensures Flat(blocks, a, n + m) == Flat(blocks, a, n) + Flat(blocks, a + n, m)
  {
  }

  lemma FlatBeyond(blocks: Blocks, base: nat, offset: nat, size: nat)
    requires WellFormed(blocks) && base % BLOCK_SIZE == 0 && forall b :: b in blocks ==> b < base
    ensures Flat(blocks, base + offset, size) == Zeros(size)
  {
    var flat := Flat(blocks, base + offset, size);
    forall i | 0 <= i < size
      ensures flat[i] == 0
    {
      BaseNotBelow(base, offset + i);
      assert base + offset + i == base + (offset + i);
    }
  }

  lemma {:induction false} ReadIsFlat(blocks: Blocks, base: nat, offset: nat, size: nat)
    requires WellFormed(blocks) && base % BLOCK_SIZE == 0 && offset < BLOCK_SIZE
    requires offset == 0 || offset + size <= BLOCK_SIZE
    ensures ReadFrom(blocks, base, offset, size) == Some(Flat(blocks, base + offset, size))
    decreases size
  {
    var count := if size <= BLOCK_SIZE then size else BLOCK_SIZE;
    if size == 0 {
    } else if forall b :: b in blocks ==> b < base {
      FlatBeyond(blocks, base, offset, size);
    } else {
      InBlock(base, 0);
      FlatBlock(blocks, base, offset, count);
      ReadIsFlat(blocks, base + BLOCK_SIZE, 0, size - count);
      FlatSplit(blocks, base + offset, count, size - count);
    }
  }

  // Exactly the reads in step are right whatever the memory holds: any other runs past the end of
  // its first block when that block is there.
  lemma ReadIffInStep(a: nat, size: nat)
    ensures InStep(a, size) <==>
      forall blocks :: WellFormed(blocks) ==> ReadFrom(blocks, BaseOf(a), a % BLOCK_SIZE, size) == Some(Flat(blocks, a, size))
  {
    if InStep(a, size) {
      forall blocks | WellFormed(blocks)
        ensures ReadFrom(blocks, BaseOf(a), a % BLOCK_SIZE, size) == Some(Flat(blocks, a, size))
      {
        ReadIsFlat(blocks, BaseOf(a), a % BLOCK_SIZE, size);
      }
    } else {
      var blocks: Blocks := map[BaseOf(a) := Zeros(BLOCK_SIZE)];
      assert WellFormed(blocks);
      assert ReadFrom(blocks, BaseOf(a), a % BLOCK_SIZE, size) == None;
    }
  }

  // ----- writing

  type Mask = Option<seq<bool>>

  ghost predicate Fits(mask: Mask, data: seq<u8>) {
    mask.Some? ==> |mask.value| == |data|
  }

  // Whether byte i of the data is to be written.
  predicate Unmasked(mask: Mask, i: nat)
    requires mask.Some? ==> i < |mask.value|
  {
    mask.None? || mask.value[i]
  }

  // The byte at x after a write.
  ghost function Overwritten(was: u8, x: nat, a: nat, data: seq<u8>, mask: Mask): u8
    requires Fits(mask, data)
  {
    if a <= x < a + |data| && Unmasked(mask, x - a) then data[x - a] else was
  }

  // The flat memory changed as the bytes from..to of a write say, and nowhere else.
  ghost predicate Wrote(blocks: Blocks, blocks': Blocks, a: nat, data: seq<u8>, mask: Mask, from: nat, to: nat) {
    && WellFormed(blocks) && WellFormed(blocks') && Fits(mask, data) && from <= to <= |data|
    && forall x: nat :: ByteAt(blocks', x) == Rewritten(ByteAt(blocks, x), x, a, data, mask, from, to)
  }

  ghost function Rewritten(was: u8, x: nat, a: nat, data: seq<u8>, mask: Mask, from: nat, to: nat): u8
    requires Fits(mask, data)
  {
    if a + from <= x < a + to then Overwritten(was, x, a, data, mask) else was
  }

  lemma WroteAll(blocks: Blocks, blocks': Blocks, a: nat, data: seq<u8>, mask: Mask)
    requires Wrote(blocks, blocks', a, data, mask, 0, |data|)
    ensures forall x: nat ::
      ByteAt(blocks', x) == (
        if a <= x < a + |data| && (mask.None? || mask.value[x - a]) then data[x - a] else ByteAt(blocks, x))
  {
  }

  // Writing the first bytes, then the next, is writing them all.
  lemma WroteBoth(b0: Blocks, b1: Blocks, b2: Blocks, a: nat, data: seq<u8>, mask: Mask, n: nat, m: nat)
    requires Wrote(b0, b1, a, data, mask, 0, n) && Wrote(b1, b2, a, data, mask, n, m)
    ensures Wrote(b0, b2, a, data, mask, 0, m)
  {
  }

  lemma WroteNothing(blocks: Blocks, a: nat, data: seq<u8>, mask: Mask)
    requires WellFormed(blocks) && Fits(mask, data)
    ensures Wrote(blocks, blocks, a, data, mask, 0, 0)
  {
  }

  class VirtualMemory {
    var blocks: Blocks
    var totalAllocated: nat

    ghost predicate Valid()
      reads this
    {
      WellFormed(blocks) && totalAllocated == |blocks| * BLOCK_SIZE
    }

    constructor ()
      ensures Valid() && blocks == map[]
    {
      blocks, totalAllocated := map[], 0;
    }

    method Read(a: nat, size: nat) returns (r: Option<seq<u8>>)
      requires Valid()
      ensures r == ReadFrom(blocks, BaseOf(a), a % BLOCK_SIZE, size)
      ensures InStep(a, size) ==> r == Some(Flat(blocks, a, size))
    {
      if InStep(a, size) {
        ReadIsFlat(blocks, BaseOf(a), a % BLOCK_SIZE, size);
      }
      var base: nat, offset: nat, left: nat := BaseOf(a), a % BLOCK_SIZE, size;
      var data := [];
      var pos: Option<nat> := LowerBound(blocks.Keys, base);
      ThenNothing(ReadFrom(blocks, base, offset, left));
      while left > 0
        invariant base % BLOCK_SIZE == 0 && IsLowerBound(blocks.Keys, base, pos)
        invariant Then(data, ReadFrom(blocks, base, offset, left)) == ReadFrom(blocks, BaseOf(a), a % BLOCK_SIZE, size)
      {
        if pos.None? {
          return Some(data + Zeros(left));
        }
        var count: nat := if left <= BLOCK_SIZE then left else BLOCK_SIZE;
        var part;
        NextBlock(blocks, base);
        if pos.value > base {
          part := Zeros(count);
        } else {
          // The block ends before the part does.
          if offset + count > BLOCK_SIZE {
            return None;
          }
          part := blocks[base][offset..offset + count];
          pos := LowerBound(blocks.Keys, base + 1);
        }
        ThenThen(data, part, ReadFrom(blocks, base + BLOCK_SIZE, 0, left - count));
        data := data + part;
        base, offset, left := base + BLOCK_SIZE, 0, left - count;
      }
      r := Some(data);
      ThenThen(data, [], None);
      assert data + [] == data;
    }

    // The block at an address, made and cleared if it was not there.
    method FindOrInsert(base: nat, ghost a: nat, ghost data: seq<u8>, ghost mask: Mask, ghost from: nat)
      requires Valid() && base % BLOCK_SIZE == 0 && Fits(mask, data) && from <= |data|
      modifies this
      ensures Valid() && blocks.Keys == old(blocks.Keys) + {base}
      ensures Wrote(old(blocks), blocks, a, data, mask, from, from)
    {
      if base !in blocks {
        blocks := blocks[base := Zeros(BLOCK_SIZE)];
        totalAllocated := totalAllocated + BLOCK_SIZE;
      }
    }

    // Writes the bytes from..to of the data into one block.
    method WriteBlock(base: nat, offset: nat, ghost a: nat, data: seq<u8>, mask: Mask, from: nat, to: nat)
      requires Valid() && base in blocks && Fits(mask, data)
      requires from <= to <= |data| && a + from == base + offset && offset + (to - from) <= BLOCK_SIZE
      modifies this`blocks
      ensures Valid() && blocks.Keys == old(blocks.Keys)
      ensures Wrote(old(blocks), blocks, a, data, mask, from, to)
    {
      var block: seq<u8> := blocks[base];
      var i := 0;
      while i < to - from
        invariant i <= to - from && BlockRewritten(blocks[base], block, offset, data, mask, from, from + i)
      {
        if Unmasked(mask, from + i) {
          block := block[offset + i := data[from + i]];
        }
        i := i + 1;
      }
      BlockWritten(blocks, base, block, offset, a, data, mask, from, to);
      blocks := blocks[base := block];
    }

    // One round of the loop below, on top of what has been written since the blocks were b0.
    method WriteNext(base: nat, offset: nat, ghost a: nat, data: seq<u8>, mask: Mask, from: nat, to: nat, ghost b0: Blocks)
      requires Valid() && base % BLOCK_SIZE == 0 && Fits(mask, data)
      requires from <= to <= |data| && a + from == base + offset && offset + (to - from) <= BLOCK_SIZE
      requires Wrote(b0, blocks, a, data, mask, 0, from)
      modifies this
      ensures Valid() && blocks.Keys == old(blocks.Keys) + {base}
      ensures Wrote(b0, blocks, a, data, mask, 0, to)
    {
      hide Wrote, Fits;
      FindOrInsert(base, a, data, mask, from);
      ghost var b1 := blocks;
      WroteBoth(b0, old(blocks), b1, a, data, mask, from, from);
      WriteBlock(base, offset, a, data, mask, from, to);
      WroteBoth(b0, b1, blocks, a, data, mask, from, to);
    }

    // Writes the bytes that are not masked, and changes no other.
    method Write(a: nat, data: seq<u8>, mask: Mask)
      requires Valid() && Fits(mask, data)
      modifies this
      ensures Valid() && Wrote(old(blocks), blocks, a, data, mask, 0, |data|)
      ensures forall x: nat ::
        ByteAt(blocks, x) == (
          if a <= x < a + |data| && (mask.None? || mask.value[x - a]) then data[x - a] else ByteAt(old(blocks), x))
      ensures blocks.Keys == old(blocks.Keys) + Touched(a, |data|)
    {
      hide Wrote, Fits, BlocksIn, BaseOf, WellFormed, OnTheWay;
      var base: nat, offset: nat, done: nat := BaseOf(a), a % BLOCK_SIZE, 0;
      WroteNothing(blocks, a, data, mask);
      SetOut(a, |data|);
      while done < |data|
        invariant Valid() && done <= |data| && OnTheWay(base, offset, done, a, |data|)
        invariant Wrote(old(blocks), blocks, a, data, mask, 0, done)
        invariant blocks.Keys == old(blocks.Keys) + BlocksIn(BaseOf(a), base)
      {
        OneBlock(base, offset, done, a, |data|);
        var count: nat := if |data| - done <= BLOCK_SIZE - offset then |data| - done else BLOCK_SIZE - offset;
        WriteNext(base, offset, a, data, mask, done, done + count, old(blocks));
        base, offset, done := base + BLOCK_SIZE, 0, done + count;
      }
      Arrived(base, offset, a, |data|);
      WroteAll(old(blocks), blocks, a, data, mask);
    }

    // Any sequence of writes to a new memory, then a read: every byte is the last one written there
    // and not masked, or zero.
    method Session(ops: seq<WriteOp>, a: nat, size: nat) returns (r: Option<seq<u8>>)
      requires Valid() && blocks == map[] && forall i :: 0 <= i < |ops| ==> Fits(ops[i].mask, ops[i].data)
      modifies this
      ensures Valid()
      ensures InStep(a, size) ==> r.Some? && |r.value| == size && forall i :: 0 <= i < size ==>
        && r.value[i] == LastWritten(ops, |ops|, a + i)
        && ((forall k :: 0 <= k < |ops| ==> !Covers(ops[k], a + i)) ==> r.value[i] == 0)
        && (forall k :: 0 <= k < |ops| && Covers(ops[k], a + i) && (forall m :: k < m < |ops| ==> !Covers(ops[m], a + i)) ==>
              r.value[i] == ops[k].data[a + i - ops[k].a])
    {
      hide WellFormed;
      for n := 0 to |ops|
        invariant Valid() && Remembers(blocks, ops, n)
      {
        ghost var before := blocks;
        Write(ops[n].a, ops[n].data, ops[n].mask);
        RemembersOneMore(before, blocks, ops, n);
      }
      r := Read(a, size);
      forall x: nat, k: nat | k < |ops| && Covers(ops[k], x) && forall m :: k < m < |ops| ==> !Covers(ops[m], x)
        ensures LastWritten(ops, |ops|, x) == ops[k].data[x - ops[k].a]
      {
        LastCovers(ops, |ops|, x, k);
      }
      forall x: nat | forall k :: 0 <= k < |ops| ==> !Covers(ops[k], x)
        ensures LastWritten(ops, |ops|, x) == 0
      {
        NoneCovers(ops, |ops|, x);
      }
    }
  }

  datatype WriteOp = WriteOp(a: nat, data: seq<u8>, mask: Mask)

  ghost function LastWritten(ops: seq<WriteOp>, n: nat, x: nat): u8
    requires n <= |ops| && forall i :: 0 <= i < |ops| ==> Fits(ops[i].mask, ops[i].data)
  {
    if n == 0 then 0
    else Rewritten(LastWritten(ops, n - 1, x), x, ops[n - 1].a, ops[n - 1].data, ops[n - 1].mask, 0, |ops[n - 1].data|)
  }

  // The write reaches address x and does not mask it.
  ghost predicate Covers(op: WriteOp, x: nat)
    requires Fits(op.mask, op.data)
  {
    op.a <= x < op.a + |op.data| && (op.mask.None? || op.mask.value[x - op.a])
  }

  lemma {:induction false} LastCovers(ops: seq<WriteOp>, n: nat, x: nat, k: nat)
    requires n <= |ops| && k < n && forall i :: 0 <= i < |ops| ==> Fits(ops[i].mask, ops[i].data)
    requires Covers(ops[k], x) && forall m :: k < m < n ==> !Covers(ops[m], x)
    ensures LastWritten(ops, n, x) == ops[k].data[x - ops[k].a]
  {
    if k < n - 1 {
      LastCovers(ops, n - 1, x, k);
    }
  }

  lemma {:induction false} NoneCovers(ops: seq<WriteOp>, n: nat, x: nat)
    requires n <= |ops| && forall i :: 0 <= i < |ops| ==> Fits(ops[i].mask, ops[i].data)
    requires forall m :: 0 <= m < n ==> !Covers(ops[m], x)
    ensures LastWritten(ops, n, x) == 0
  {
    if n > 0 {
      NoneCovers(ops, n - 1, x);
    }
  }

  ghost predicate Remembers(blocks: Blocks, ops: seq<WriteOp>, n: nat)
    requires n <= |ops| && forall i :: 0 <= i < |ops| ==> Fits(ops[i].mask, ops[i].data)
  {
    WellFormed(blocks) && forall x: nat :: ByteAt(blocks, x) == LastWritten(ops, n, x)
  }

  lemma RemembersOneMore(blocks: Blocks, blocks': Blocks, ops: seq<WriteOp>, n: nat)
    requires n < |ops| && forall i :: 0 <= i < |ops| ==> Fits(ops[i].mask, ops[i].data)
    requires Remembers(blocks, ops, n) && Wrote(blocks, blocks', ops[n].a, ops[n].data, ops[n].mask, 0, |ops[n].data|)
    ensures Remembers(blocks', ops, n + 1)
  {
  }

  // The blocks between two addresses.
  ghost function BlocksIn(from: nat, to: nat): set<nat> {
    set b: nat | from <= b < to && b % BLOCK_SIZE == 0
  }

  // The blocks a write of n bytes reaches.
  ghost function Touched(a: nat, n: nat): set<nat> {
    if n == 0 then {} else BlocksIn(BaseOf(a), a + n)
  }

  // Where the loop of Write stands when some of the bytes are written.
  ghost predicate OnTheWay(base: nat, offset: nat, done: nat, a: nat, size: nat) {
    && base % BLOCK_SIZE == 0 && offset < BLOCK_SIZE && BaseOf(a) <= base
    && (done == 0 ==> base == BaseOf(a))
    && (done < size ==> a + done == base + offset)
    && (done == size > 0 ==> base - BLOCK_SIZE < a + done <= base)
  }

  lemma SetOut(a: nat, size: nat)
    ensures OnTheWay(BaseOf(a), a % BLOCK_SIZE, 0, a, size)
    ensures BlocksIn(BaseOf(a), BaseOf(a)) == {}
  {
    BaseFacts(a);
  }

  lemma OneBlock(base: nat, offset: nat, done: nat, a: nat, size: nat)
    requires OnTheWay(base, offset, done, a, size) && done < size
    ensures base % BLOCK_SIZE == 0 && offset < BLOCK_SIZE && a + done == base + offset
    ensures var count := if size - done <= BLOCK_SIZE - offset then size - done else BLOCK_SIZE - offset;
      OnTheWay(base + BLOCK_SIZE, 0, done + count, a, size)
    ensures BlocksIn(BaseOf(a), base + BLOCK_SIZE) == BlocksIn(BaseOf(a), base) + {base}
  {
    Between(base);
  }

  lemma Arrived(base: nat, offset: nat, a: nat, size: nat)
    requires OnTheWay(base, offset, size, a, size)
    ensures BlocksIn(BaseOf(a), base) == Touched(a, size)
  {
    if size > 0 && base > 0 {
      Between(base - BLOCK_SIZE);
    }
  }

  lemma BaseFacts(a: nat)
    ensures BaseOf(a) % BLOCK_SIZE == 0 && a == BaseOf(a) + a % BLOCK_SIZE
  {
  }

  lemma Between(base: nat)
    requires base % BLOCK_SIZE == 0
    ensures (base + BLOCK_SIZE) % BLOCK_SIZE == 0
    ensures forall b: nat :: b % BLOCK_SIZE == 0 && base <= b < base + BLOCK_SIZE ==> b == base
  {
  }

  ghost predicate BlockRewritten(was: seq<u8>, block: seq<u8>, offset: nat, data: seq<u8>, mask: Mask, from: nat, to: nat)
    requires Fits(mask, data) && from <= to <= |data| && |was| == BLOCK_SIZE
  {
    && |block| == BLOCK_SIZE
    && forall k: nat :: k < BLOCK_SIZE ==> block[k] == Rewritten(was[k], k + from, offset, data, mask, from, to)
  }

  lemma BlockWritten(blocks: Blocks, base: nat, block: seq<u8>, offset: nat, a: nat, data: seq<u8>, mask: Mask, from: nat, to: nat)
    requires WellFormed(blocks) && base in blocks && Fits(mask, data)
    requires from <= to <= |data| && a + from == base + offset && offset + (to - from) <= BLOCK_SIZE
    requires BlockRewritten(blocks[base], block, offset, data, mask, from, to)
    ensures Wrote(blocks, blocks[base := block], a, data, mask, from, to)
  {
    forall x: nat
      ensures ByteAt(blocks[base := block], x) == Rewritten(ByteAt(blocks, x), x, a, data, mask, from, to)
    {
      if BaseOf(x) == base {
        assert x == base + x % BLOCK_SIZE;
      } else if a + from <= x < a + to {
        InBlock(base, x - base);
      }
    }
  }

  lemma ThenNothing(more: Option<seq<u8>>)
    ensures Then([], more) == more
  {
    assert more.Some? ==> [] + more.value == more.value;
  }

  lemma ThenThen(data: seq<u8>, part: seq<u8>, more: Option<seq<u8>>)
    ensures Then(data, Then(part, more)) == Then(data + part, more)
  {
    assert more.Some? ==> data + (part + more.value) == data + part + more.value;
  }

  // No block lies between a block's first byte and the next block.
  lemma NextBlock(blocks: Blocks, base: nat)
    requires WellFormed(blocks) && base % BLOCK_SIZE == 0
    ensures forall b :: b in blocks && base < b ==> base + BLOCK_SIZE <= b
    ensures (base + BLOCK_SIZE) % BLOCK_SIZE == 0
  {
  }
}
