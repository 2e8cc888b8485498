// arch/dev/RPC.cpp: how an argument or result area is cut into bus transfers.
module RpcChunks {
  import opened Arith

  datatype Chunk = Chunk(addr: nat, size: nat)

  // One transfer: no more than is left, no more than a line, not past the end of its line.
  function TransferSize(total: nat, base: nat, off: nat, line: nat): (n: nat)
    requires off <= total && line > 0
    ensures n <= total - off && (off < total ==> n > 0)
    ensures (base + off) % line + n <= line
  {
    Min(Min(total - off, line), line - (base + off) % line)
  }

  // The transfers from offset off to the end of an area.
  function Chunks(base: nat, total: nat, off: nat, line: nat): seq<Chunk>
    requires off <= total && line > 0
    decreases total - off
  {
    if off == total then []
    else
      var n := TransferSize(total, base, off, line);
      [Chunk(base + off, n)] + Chunks(base, total, off + n, line)
  }

  // Consecutive, non-empty, each inside one line, and together the whole range.
  ghost predicate Partition(cs: seq<Chunk>, from: nat, to: nat, line: nat)
    requires line > 0
  {
    if cs == [] then from == to
    else
      && cs[0].addr == from && cs[0].size > 0
      && from % line + cs[0].size <= line
      && Partition(cs[1..], from + cs[0].size, to, line)
  }

  lemma {:induction false} ChunksPartition(base: nat, total: nat, off: nat, line: nat)
    requires off <= total && line > 0
    ensures Partition(Chunks(base, total, off, line), base + off, base + total, line)
    decreases total - off
  {
    if off < total {
      var n := TransferSize(total, base, off, line);
      ChunksPartition(base, total, off + n, line);
      assert Chunks(base, total, off, line)[1..] == Chunks(base, total, off + n, line);
    }
  }

  // Where the line around an address begins.
  function LineStart(a: nat, line: nat): nat
    requires line > 0
  {
    a - a % line
  }

  lemma SameLine(s: nat, a: nat, line: nat)
    requires line > 0 && s <= a && s % line + (a - s) < line
    ensures LineStart(a, line) == LineStart(s, line)
  {
    assert s == s / line * line + s % line;
    ModUnique(a, s / line, s % line + (a - s), line);
  }

  lemma LineStartBetween(e: nat, a: nat, line: nat)
    requires line > 0 && LineStart(a, line) <= e <= a
    ensures LineStart(e, line) == LineStart(a, line)
  {
    DivMod(a, line);
    ModUnique(e, a / line, e - LineStart(a, line), line);
  }

  // Every transfer but the first starts on a line boundary.
  lemma NextAligned(total: nat, base: nat, off: nat, line: nat)
    requires off < total && line > 0 && (off == 0 || (base + off) % line == 0)
    ensures var n := TransferSize(total, base, off, line);
      off + n == total || (base + off + n) % line == 0
  {
    var n, s := TransferSize(total, base, off, line), base + off;
    if off + n < total {
      assert s == s / line * line + s % line;
      assert (s / line + 1) * line == s / line * line + line;
      ModUnique(s + n, s / line + 1, 0, line);
    }
  }

  // The transfer that carries address a of an area starting at base.
  function ChunkStart(base: nat, a: nat, line: nat): nat
    requires line > 0
  {
    if LineStart(a, line) < base then base else LineStart(a, line)
  }

  lemma ChunkStartIs(total: nat, base: nat, off: nat, line: nat, a: nat)
    requires off < total && line > 0 && (off == 0 || (base + off) % line == 0)
    requires base + off <= a < base + off + TransferSize(total, base, off, line)
    ensures ChunkStart(base, a, line) == base + off
  {
    SameLine(base + off, a, line);
  }
}
