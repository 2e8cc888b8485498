// Fixed-width machine arithmetic, written out on natural numbers.
module Bits {
  import opened Arith

  const U64_SIZE: nat := 0x1_0000_0000_0000_0000
  const U32_SIZE: nat := 0x1_0000_0000
  type u64 = x: nat | x < U64_SIZE
  type u32 = x: nat | x < U32_SIZE
  type u8 = x: nat | x < 256

  function Pow2(n: nat): (r: nat)
    ensures r > 0
  {
    if n == 0 then 1 else 2 * Pow2(n - 1)
  }

  // x >> n
  function Shr(x: nat, n: nat): (r: nat)
    ensures r <= x
    decreases n, x
  {
    if n == 0 then x else Shr(x / 2, n - 1)
  }

  // x << n on unbounded numbers; callers truncate to their own width.
  function Shl(x: nat, n: nat): nat
    decreases n, x
  {
    if n == 0 then x else 2 * Shl(x, n - 1)
  }

  // x | y
  function Or(x: nat, y: nat): nat
    decreases x + y
  {
    if x == 0 && y == 0 then 0
    else 2 * Or(x / 2, y / 2) + (if x % 2 == 1 || y % 2 == 1 then 1 else 0)
  }

  // x ^ y
  function Xor(x: nat, y: nat): nat
    decreases x + y
  {
    if x == 0 && y == 0 then 0
    else 2 * Xor(x / 2, y / 2) + (if x % 2 != y % 2 then 1 else 0)
  }

  // x & y
  function And(x: nat, y: nat): nat
    decreases x + y
  {
    if x == 0 || y == 0 then 0
    else 2 * And(x / 2, y / 2) + (if x % 2 == 1 && y % 2 == 1 then 1 else 0)
  }

  lemma {:induction false} ShrShr(x: nat, m: nat, n: nat)
    ensures Shr(Shr(x, m), n) == Shr(x, m + n)
  {
    if m > 0 {
      ShrShr(x / 2, m - 1, n);
    }
  }

  lemma Shr3(x: nat)
    ensures Shr(x, 3) == x / 8
  {
    assert Shr(x / 4, 1) == Shr(x / 8, 0);
    assert Shr(x / 2, 2) == Shr(x / 4, 1);
  }

  lemma Shr9(x: nat)
    ensures Shr(x, 9) == x / 512
  {
    hide Shr;
    ShrShr(x, 3, 6);
    ShrShr(x / 8, 3, 3);
    Shr3(x);
    Shr3(x / 8);
    Shr3(x / 64);
  }

  lemma {:induction false} ShrBound(x: nat, m: nat, n: nat)
    requires m <= n && x < Pow2(n)
    ensures Shr(x, m) < Pow2(n - m)
    decreases m
  {
    if m > 0 {
      ShrBound(x / 2, m - 1, n - 1);
    }
  }

  // Low bits below a shifted value fit in the sum of the two widths.
  lemma {:induction false} ShlBound(low: nat, x: nat, m: nat, n: nat)
    requires low < Pow2(n) && x < Pow2(m)
    ensures low + Shl(x, n) < Pow2(m + n)
    decreases n
  {
    if n > 0 {
      ShlBound(low / 2, x, m, n - 1);
      assert Pow2(m + n) == 2 * Pow2(m + (n - 1));
    }
  }

  // Shifting right moves a value that was shifted left past the other bits back down.
  lemma {:induction false} ShrSum(low: nat, x: nat, m: nat, n: nat)
    requires m <= n
    ensures Shr(low + Shl(x, n), m) == Shr(low, m) + Shl(x, n - m)
    decreases m
  {
    if m > 0 {
      assert (low + Shl(x, n)) / 2 == low / 2 + Shl(x, n - 1);
      ShrSum(low / 2, x, m - 1, n - 1);
    }
  }

  // Low bits and a value shifted past them are determined by their sum.
  lemma {:induction false} ShlUnique(low1: nat, x1: nat, low2: nat, x2: nat, n: nat)
    requires low1 < Pow2(n) && low2 < Pow2(n)
    requires low1 + Shl(x1, n) == low2 + Shl(x2, n)
    ensures low1 == low2 && x1 == x2
    decreases n
  {
    if n > 0 {
      EvenParts(low1, Shl(x1, n - 1), low2, Shl(x2, n - 1));
      ShlUnique(low1 / 2, x1, low2 / 2, x2, n - 1);
    }
  }

  lemma EvenParts(a: nat, s: nat, b: nat, t: nat)
    requires a + 2 * s == b + 2 * t
    ensures a % 2 == b % 2 && a / 2 + s == b / 2 + t
  {
  }

  // Bits below a shifted value stay apart from it; bits at or above it meet it.
  lemma {:induction false} OrSplit(low: nat, a: nat, x: nat, n: nat)
    requires low < Pow2(n)
    ensures Or(low + Shl(a, n), Shl(x, n)) == low + Shl(Or(a, x), n)
    decreases n
  {
    if n > 0 {
      OrHalves(low + Shl(a, n), Shl(x, n));
      assert (low + Shl(a, n)) / 2 == low / 2 + Shl(a, n - 1);
      OrSplit(low / 2, a, x, n - 1);
    }
  }

  lemma {:induction false} ShlIsMul(x: nat, k: nat)
    ensures Shl(x, k) == x * Pow2(k)
  {
    if k > 0 {
      ShlIsMul(x, k - 1);
    }
  }

  lemma {:induction false} ShlZero(n: nat)
    ensures Shl(0, n) == 0
  {
    if n > 0 {
      ShlZero(n - 1);
    }
  }

  lemma OrDisjoint(low: nat, x: nat, n: nat)
    requires low < Pow2(n)
    ensures Or(low, Shl(x, n)) == low + Shl(x, n)
  {
    OrSplit(low, 0, x, n);
    ShlZero(n);
    OrZero(x);
  }

  lemma OrHalves(x: nat, y: nat)
    ensures Or(x, y) == 2 * Or(x / 2, y / 2) + (if x % 2 == 1 || y % 2 == 1 then 1 else 0)
  {
  }

  lemma {:induction false} OrZero(y: nat)
    ensures Or(0, y) == y
  {
    if y > 0 {
      OrZero(y / 2);
    }
  }

  lemma {:induction false} OrBound(x: nat, y: nat, n: nat)
    requires x < Pow2(n) && y < Pow2(n)
    ensures Or(x, y) < Pow2(n)
  {
    if n > 0 {
      OrHalves(x, y);
      OrBound(x / 2, y / 2, n - 1);
    }
  }

  lemma {:induction false} Pow2Add(m: nat, n: nat)
    ensures Pow2(m + n) == Pow2(m) * Pow2(n)
  {
    if m > 0 {
      Pow2Add(m - 1, n);
      assert Pow2(m) * Pow2(n) == 2 * (Pow2(m - 1) * Pow2(n));
    }
  }

  lemma {:induction false} Pow2Monotone(m: nat, n: nat)
    requires m <= n
    ensures Pow2(m) <= Pow2(n)
  {
    if m < n {
      Pow2Monotone(m, n - 1);
    }
  }

  lemma Pow2Values()
    ensures Pow2(0) == 1 && Pow2(9) == 512 && Pow2(12) == 4096 && Pow2(16) == 0x1_0000
    ensures Pow2(18) == 0x4_0000 && Pow2(36) == 0x10_0000_0000 && Pow2(48) == 0x1_0000_0000_0000
    ensures Pow2(52) == 0x10_0000_0000_0000 && Pow2(54) == 0x40_0000_0000_0000 && Pow2(64) == U64_SIZE
  {
    hide Pow2;
    Pow2Small();
    Pow2Add(3, 6);
    Pow2Add(3, 9);
    Pow2Add(4, 12);
    Pow2Add(9, 9);
    Pow2Add(18, 18);
    Pow2Add(36, 12);
    Pow2Add(48, 4);
    Pow2Add(48, 6);
    Pow2Add(52, 12);
    Pow2Add(3, 3);
  }

  lemma Pow2Small()
    ensures Pow2(0) == 1 && Pow2(3) == 8 && Pow2(4) == 16
  {
  }

  // A bit field of width w at offset off, as a compiler lays it out from the low end.
  function GetBits(x: nat, off: nat, w: nat): nat
    decreases off, w, x
  {
    if off > 0 then GetBits(x / 2, off - 1, w)
    else if w > 0 then x % 2 + 2 * GetBits(x / 2, 0, w - 1)
    else 0
  }

  function SetBits(x: nat, off: nat, w: nat, v: nat): nat
    decreases off, w, x
  {
    if off > 0 then x % 2 + 2 * SetBits(x / 2, off - 1, w, v)
    else if w > 0 then v % 2 + 2 * SetBits(x / 2, 0, w - 1, v / 2)
    else x
  }

  lemma {:induction false} GetSetSame(x: nat, off: nat, w: nat, v: nat)
    requires v < Pow2(w)
    ensures GetBits(SetBits(x, off, w, v), off, w) == v
    decreases off, w
  {
    if off > 0 {
      GetSetSame(x / 2, off - 1, w, v);
    } else if w > 0 {
      GetSetSame(x / 2, 0, w - 1, v / 2);
    }
  }

  lemma GetStep(x: nat, off: nat, w: nat)
    ensures off > 0 ==> GetBits(x, off, w) == GetBits(x / 2, off - 1, w)
    ensures off == 0 && w > 0 ==> GetBits(x, 0, w) == x % 2 + 2 * GetBits(x / 2, 0, w - 1)
    ensures off == 0 && w == 0 ==> GetBits(x, 0, 0) == 0
  {
  }

  lemma SetStep(x: nat, off: nat, w: nat, v: nat)
    ensures off > 0 ==> SetBits(x, off, w, v) % 2 == x % 2 && SetBits(x, off, w, v) / 2 == SetBits(x / 2, off - 1, w, v)
    ensures off == 0 && w > 0 ==> SetBits(x, 0, w, v) / 2 == SetBits(x / 2, 0, w - 1, v / 2)
    ensures off == 0 && w == 0 ==> SetBits(x, 0, 0, v) == x
  {
  }

  lemma {:induction false} GetSetOther(x: nat, off: nat, w: nat, v: nat, off': nat, w': nat)
    requires off + w <= off' || off' + w' <= off
    ensures GetBits(SetBits(x, off, w, v), off', w') == GetBits(x, off', w')
    decreases off + w, off' + w'
  {
    hide GetBits, SetBits;
    var y := SetBits(x, off, w, v);
    SetStep(x, off, w, v);
    GetStep(x, off', w');
    GetStep(y, off', w');
    if off > 0 && off' > 0 {
      GetSetOther(x / 2, off - 1, w, v, off' - 1, w');
    } else if off > 0 && w' > 0 {
      GetSetOther(x / 2, off - 1, w, v, 0, w' - 1);
    } else if off == 0 && w > 0 && off' > 0 {
      GetSetOther(x / 2, 0, w - 1, v / 2, off' - 1, w');
    }
  }

  lemma {:induction false} SetBitsBound(x: nat, off: nat, w: nat, v: nat, n: nat)
    requires x < Pow2(n) && off + w <= n
    ensures SetBits(x, off, w, v) < Pow2(n)
    decreases off, w
  {
    if off > 0 {
      SetBitsBound(x / 2, off - 1, w, v, n - 1);
    } else if w > 0 {
      SetBitsBound(x / 2, 0, w - 1, v / 2, n - 1);
    }
  }

  // A bit field as a quotient and a remainder.
  lemma {:induction false} GetBitsIs(x: nat, off: nat, w: nat)
    ensures GetBits(x, off, w) == x / Pow2(off) % Pow2(w)
    decreases off, w
  {
    hide GetBits, Pow2;
    GetStep(x, off, w);
    Pow2Step(off);
    Pow2Step(w);
    if off > 0 {
      GetBitsIs(x / 2, off - 1, w);
      HalfFirst(x, Pow2(off - 1));
    } else if w > 0 {
      GetBitsIs(x / 2, 0, w - 1);
      HalfFirst(x, Pow2(w - 1));
    }
  }

  lemma Pow2Step(n: nat)
    ensures Pow2(n) == if n == 0 then 1 else 2 * Pow2(n - 1)
  {
  }

  lemma HalfFirst(x: nat, n: nat)
    requires n > 0
    ensures x / (2 * n) == x / 2 / n && x % (2 * n) == x % 2 + 2 * (x / 2 % n)
  {
    var q, r := x / 2 / n, x / 2 % n;
    DivMod(x / 2, n);
    assert x == q * (2 * n) + (x % 2 + 2 * r) by {
      assert 2 * (q * n) == q * (2 * n);
    }
    ModUnique(x, q, x % 2 + 2 * r, 2 * n);
  }

  lemma {:induction false} GetBitsBound(x: nat, off: nat, w: nat)
    ensures GetBits(x, off, w) < Pow2(w)
    decreases off, w
  {
    if off > 0 {
      GetBitsBound(x / 2, off - 1, w);
    } else if w > 0 {
      GetBitsBound(x / 2, 0, w - 1);
    }
  }
}
