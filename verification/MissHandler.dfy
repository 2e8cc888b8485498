// manager/manager.c, manager/MgtMsg.h: a TLB miss is answered in the message that carried it.
module MissHandler {
  import opened Arith
  import opened Bits
  import opened PtIndex
  import opened PageTable
  import opened Options

  const REFILL: nat := 3
  const ITLB: nat := 0
  const TABLE_OFFSET: nat := 4

  // A bit field of the first message word. The request and the two refill forms overlay each other.
  datatype Field = Field(off: nat, width: nat)

  const TYPE := Field(0, 3)
  const LINE_INDEX := Field(3, 24)
  const TLB_TYPE := Field(27, 1)
  const PRESENT := Field(27, 1)
  const CONTEXT_ID := Field(28, 16)
  const CALLER := Field(48, 16)
  const TABLE := Field(28, 8)
  const READ := Field(36, 1)
  const WRITE := Field(37, 1)
  const EXECUTE := Field(36, 1)

  function Get(word: nat, f: Field): nat {
    GetBits(word, f.off, f.width)
  }

  function Bit(b: bool): (r: nat)
    ensures r == 1 <==> b
    ensures r <= 1
  {
    if b then 1 else 0
  }

  class MgtMsg {
    var part0: u64  // the bit fields
    var part1: u64  // vAddr of a request, pAddr of a refill

    constructor (part0: u64, part1: u64)
      ensures this.part0 == part0 && this.part1 == part1
    {
      this.part0, this.part1 := part0, part1;
    }

    method Set(f: Field, v: nat)
      requires v < Pow2(f.width) && f.off + f.width <= 64
      modifies this`part0
      ensures Get(part0, f) == v
      ensures forall g: Field :: f.off + f.width <= g.off || g.off + g.width <= f.off ==> Get(part0, g) == Get(old(part0), g)
    {
      Pow2Values();
      SetBitsBound(part0, f.off, f.width, v, 64);
      GetSetSame(part0, f.off, f.width, v);
      forall g: Field | f.off + f.width <= g.off || g.off + g.width <= f.off
        ensures Get(SetBits(part0, f.off, f.width, v), g) == Get(part0, g)
      {
        GetSetOther(part0, f.off, f.width, v, g.off, g.width);
      }
      part0 := SetBits(part0, f.off, f.width, v);
    }
  }

  // The key the handler walks with.
  function MissKey(vAddr: u64, contextId: u64): u64 {
    MakeKeyBound(vAddr, contextId);
    Or(vAddr, Shl(contextId, VADDR_WIDTH - VADDR_LSO) % U64_SIZE)
  }

  // A request carries an address without its page offset; its key is the one the builder files
  // that address under.
  lemma MissKeyIsBuilderKey(contextId: u64, vaddr: u64)
    ensures MissKey(Shr(vaddr, VADDR_LSO), contextId) == CalculatePtIndex(contextId, vaddr)
  {
  }

  // Only 4 KiB, 2 MiB and 1 GiB pages fit the table field of a refill.
  ghost predicate KnownSizes(pages: map<seq<nat>, Mapping>) {
    forall q :: q in pages ==> TABLE_OFFSET <= |q| <= LEVELS
  }

  // The first word of a request is the sum of its parts, each in its place.
  lemma RequestParts(part0: u64, line: nat, tlbType: nat, contextId: nat, reserved: nat, caller: nat)
    requires line < 0x100_0000 && tlbType < 2 && contextId < 0x1_0000 && reserved < 0x10
    requires part0 == 1 + 8 * line + 0x800_0000 * tlbType + 0x1000_0000 * contextId + 0x1000_0000_0000 * reserved
                      + 0x1_0000_0000_0000 * caller
    ensures part0 / 8 % 0x100_0000 == line && part0 / 0x800_0000 % 2 == tlbType
    ensures part0 / 0x1000_0000 % 0x1_0000 == contextId && part0 / 0x1_0000_0000_0000 == caller
  {
    var high := reserved + 0x10 * caller;
    var upper := contextId + 0x1_0000 * high;
    var middle := tlbType + 2 * upper;
    ModUnique(part0, line + 0x100_0000 * middle, 1, 8);
    ModUnique(line + 0x100_0000 * middle, middle, line, 0x100_0000);
    ModUnique(part0, middle, 1 + 8 * line, 0x800_0000);
    ModUnique(middle, upper, tlbType, 2);
    ModUnique(part0, upper, 1 + 8 * line + 0x800_0000 * tlbType, 0x1000_0000);
    ModUnique(upper, high, contextId, 0x1_0000);
    ModUnique(part0, caller, 1 + 8 * line + 0x800_0000 * tlbType + 0x1000_0000 * contextId + 0x1000_0000_0000 * reserved,
              0x1_0000_0000_0000);
  }

  // The fields are the stretches of the word that the messages give them.
  lemma FieldsOf(x: u64)
    ensures Get(x, TYPE) == x % 8 && Get(x, LINE_INDEX) == x / 8 % 0x100_0000
    ensures Get(x, TLB_TYPE) == Get(x, PRESENT) == x / 0x800_0000 % 2
    ensures Get(x, CONTEXT_ID) == x / 0x1000_0000 % 0x1_0000 && Get(x, CALLER) == x / 0x1_0000_0000_0000
    ensures Get(x, TABLE) == x / 0x1000_0000 % 0x100
    ensures Get(x, READ) == Get(x, EXECUTE) == x / 0x10_0000_0000 % 2 && Get(x, WRITE) == x / 0x20_0000_0000 % 2
    ensures Get(x, Field(28, 36)) == x / 0x1000_0000
    ensures Get(x, Field(37, 27)) == x / 0x20_0000_0000 && Get(x, Field(38, 26)) == x / 0x40_0000_0000
  {
    hide Pow2, GetBits;
    FieldWidths();
    GetBitsIs(x, 0, 3);
    GetBitsIs(x, 3, 24);
    GetBitsIs(x, 27, 1);
    GetBitsIs(x, 28, 16);
    GetBitsIs(x, 48, 16);
    GetBitsIs(x, 28, 8);
    GetBitsIs(x, 36, 1);
    GetBitsIs(x, 37, 1);
    GetBitsIs(x, 28, 36);
    GetBitsIs(x, 37, 27);
    GetBitsIs(x, 38, 26);
  }

  // The walk of the message's own address through the page tables, and a reply that tells the
  // TLB exactly what it found. The network takes the reply and answers with netResult.
  method HandleMiss(pts: PageTableSet, msg: MgtMsg, netResult: int) returns (res: int, sentTo: nat)
    requires pts.Valid() && KnownSizes(pts.pages)
    modifies msg
    ensures res == netResult
    ensures sentTo == old(msg.part0) / 0x1_0000_0000_0000
    ensures msg.part0 % 8 == 3 && msg.part0 / 8 % 0x100_0000 == old(msg.part0) / 8 % 0x100_0000
    ensures match Lookup(pts.pages, Path(MissKey(old(msg.part1), old(msg.part0) / 0x1000_0000 % 0x1_0000), LEVELS), 1)
      case None =>
        && msg.part0 / 0x800_0000 % 2 == 0 && msg.part0 / 0x1000_0000 == old(msg.part0) / 0x1000_0000
        && msg.part1 == old(msg.part1)
      case Some((levels, m)) =>
        && msg.part0 / 0x800_0000 % 2 == 1 && msg.part0 / 0x1000_0000 % 0x100 == levels - 4 && msg.part1 == m.frame
        && if old(msg.part0) / 0x800_0000 % 2 == 0 then
             && msg.part0 / 0x10_0000_0000 % 2 == Bit(m.x)
             && msg.part0 / 0x20_0000_0000 == old(msg.part0) / 0x20_0000_0000
           else
             && msg.part0 / 0x10_0000_0000 % 2 == Bit(m.r) && msg.part0 / 0x20_0000_0000 % 2 == Bit(m.w)
             && msg.part0 / 0x40_0000_0000 == old(msg.part0) / 0x40_0000_0000
  {
    hide Lookup, Path, MissKey, GetBits, SetBits, Pow2, Tree;
    FieldWidths();
    FieldsOf(msg.part0);
    var contextId := Get(msg.part0, CONTEXT_ID);
    var result, entry, levels := pts.WalkPageTable(MissKey(msg.part1, contextId));
    if result < 0 {
      assert false;
    }
    var caller := Get(msg.part0, CALLER);
    msg.Set(TYPE, REFILL);
    if result != 0 {
      LookupIsPage(pts.pages, Path(MissKey(msg.part1, contextId), LEVELS));
      assert levels - TABLE_OFFSET >= 0;
      msg.Set(TABLE, levels - TABLE_OFFSET);
      msg.part1 := pts.ram[entry].addr;
      if Get(msg.part0, TLB_TYPE) == ITLB {
        msg.Set(EXECUTE, Bit(pts.ram[entry].x));
      } else {
        msg.Set(READ, Bit(pts.ram[entry].r));
        msg.Set(WRITE, Bit(pts.ram[entry].w));
      }
      msg.Set(PRESENT, 1);
    } else {
      msg.Set(PRESENT, 0);
    }
    FieldsOf(msg.part0);
    return netResult, caller;
  }

  lemma FieldWidths()
    ensures Pow2(0) == 1 && Pow2(1) == 2 && Pow2(3) == 8 && Pow2(8) == 0x100 && Pow2(16) == 0x1_0000
    ensures Pow2(24) == 0x100_0000 && Pow2(26) == 0x400_0000 && Pow2(27) == 0x800_0000 && Pow2(28) == 0x1000_0000
    ensures Pow2(36) == 0x10_0000_0000 && Pow2(37) == 0x20_0000_0000 && Pow2(38) == 0x40_0000_0000
    ensures Pow2(48) == 0x1_0000_0000_0000
  {
    hide Pow2;
    Pow2Small();
    Pow2Values();
    Pow2Step(1);
    Pow2Add(4, 4);
    Pow2Add(16, 8);
    Pow2Add(24, 3);
    Pow2Add(24, 4);
    Pow2Add(18, 8);
    Pow2Add(36, 1);
    Pow2Step(38);
  }

  lemma LookupIsPage(pages: map<seq<nat>, Mapping>, d: seq<nat>)
    ensures var r := Lookup(pages, d, 1); r.Some? ==> d[..r.value.0] in pages
  {
  }
}
