// arch/BankSelector.cpp, sim/log2.h: how line addresses are spread over banks.
module BankSelectors {
  import opened Arith
  import opened Bits
  import opened Options

  // ----- powers of two

  predicate IsPowerOfTwo(x: nat)
    requires x > 0
  {
    And(x, x - 1) == 0
  }

  lemma {:induction false} AndSelf(x: nat)
    ensures And(x, x) == x
  {
    if x > 0 {
      AndSelf(x / 2);
    }
  }

  // Dropping the lowest bit of an even number keeps the question the same; an odd number above 1
  // is no power of two.
  lemma Halved(x: nat)
    requires x > 1
    ensures x % 2 == 0 ==> (IsPowerOfTwo(x) <==> IsPowerOfTwo(x / 2))
    ensures x % 2 == 1 ==> !IsPowerOfTwo(x)
  {
    if x % 2 == 0 {
      assert (x - 1) / 2 == x / 2 - 1;
    } else {
      assert (x - 1) / 2 == x / 2;
      AndSelf(x / 2);
    }
  }

  lemma {:induction false} PowerIsPower(k: nat)
    ensures IsPowerOfTwo(Pow2(k))
  {
    if k == 0 {
      assert And(1, 0) == 0;
    } else {
      PowerIsPower(k - 1);
      Halved(Pow2(k));
    }
  }

  lemma {:induction false} ExponentOf(x: nat) returns (k: nat)
    requires x > 0 && IsPowerOfTwo(x)
    ensures x == Pow2(k)
  {
    if x == 1 {
      k := 0;
    } else {
      Halved(x);
      k := ExponentOf(x / 2);
      k := k + 1;
    }
  }

  lemma PowerOfTwoIs(x: nat)
    requires x > 0
    ensures IsPowerOfTwo(x) <==> exists k: nat :: x == Pow2(k)
  {
    if IsPowerOfTwo(x) {
      var k := ExponentOf(x);
    } else if k: nat :| x == Pow2(k) {
      PowerIsPower(k);
    }
  }

  // The least power of two that is not below n.
  method Ilog2(n: nat) returns (l: nat)
    ensures n <= Pow2(l) && forall k: nat :: k < l ==> Pow2(k) < n
  {
    l := 0;
    var r := 1;
    while r < n
      invariant r == Pow2(l) && forall k: nat :: k < l ==> Pow2(k) < n
      decreases n - r
    {
      l := l + 1;
      r := r * 2;
    }
  }

  // ----- shifts and masks are divisions and remainders

  lemma Regroup(p: nat, n: nat, s: nat, m: nat, r: nat)
    ensures (p * n + s) * m + r == p * (m * n) + (m * s + r)
  {
    assert p * n * m == p * (m * n);
  }

  lemma BelowProduct(m: nat, s: nat, n: nat, r: nat)
    requires s < n && r < m
    ensures m * s + r < m * n
  {
    MulLe(s + 1, n, m);
  }

  lemma DivDiv(x: nat, m: nat, n: nat)
    requires m > 0 && n > 0
    ensures m * n > 0 && x / m / n == x / (m * n) && x % (m * n) == m * (x / m % n) + x % m
  {
    var q, r := x / m, x % m;
    var p, s := q / n, q % n;
    DivMod(x, m);
    DivMod(q, n);
    Regroup(p, n, s, m, r);
    BelowProduct(m, s, n, r);
    ModUnique(x, p, m * s + r, m * n);
  }

  lemma {:induction false} ShrIsDiv(x: nat, k: nat)
    ensures Shr(x, k) == x / Pow2(k)
  {
    if k > 0 {
      ShrIsDiv(x / 2, k - 1);
      DivDiv(x, 2, Pow2(k - 1));
    }
  }

  lemma {:induction false} AndIsMod(x: nat, k: nat)
    ensures And(x, Pow2(k) - 1) == x % Pow2(k)
    decreases k
  {
    if k > 0 {
      var p := Pow2(k - 1);
      AndIsMod(x / 2, k - 1);
      DivDiv(x, 2, p);
      assert (Pow2(k) - 1) / 2 == p - 1 && (Pow2(k) - 1) % 2 == 1;
      if x == 0 {
        ModSmall(0, Pow2(k));
      }
    }
  }

  lemma {:induction false} OrCommutes(x: nat, y: nat)
    ensures Or(x, y) == Or(y, x)
    decreases x + y
  {
    if x > 0 || y > 0 {
      OrCommutes(x / 2, y / 2);
    }
  }

  // ----- the selectors without a loop

  // The folds have loops and are below; RotationMix is not part of this model.
  datatype Selector = Zero | Direct | DirectBinary(mask: nat, shift: nat) | RightXor | RightAdd | XorFold | AddFold | RotationMix

  predicate IsSimple(s: Selector) {
    !s.XorFold? && !s.AddFold? && !s.RotationMix?
  }

  // The tag and the bank of an address.
  function Map(s: Selector, n: nat, address: nat): (r: (nat, nat))
    requires n > 0 && IsSimple(s)
  {
    match s
    case Zero => (address, 0)
    case Direct => (address / n, address % n)
    case DirectBinary(mask, shift) => (Shr(address, shift), And(address, mask))
    case RightXor => (address, Xor(address, address / n) % n)
    case RightAdd => (address, (address + address / n) % n)
  }

  function Unmap(s: Selector, n: nat, tag: nat, index: nat): nat {
    match s
    case Zero => tag
    case Direct => tag * n + index
    case DirectBinary(_, shift) => Or(Shl(tag, shift), index)
    case _ => tag
  }

  // Where the number of banks is a power of two, the direct selector gets its fast form, which
  // does the same.
  method MakeDirect(n: nat) returns (s: Selector)
    requires n > 0
    ensures IsSimple(s) && (s.DirectBinary? <==> exists k: nat :: n == Pow2(k))
    ensures forall a :: Map(s, n, a) == Map(Direct, n, a)
    ensures forall t, i: nat :: i < n ==> Unmap(s, n, t, i) == Unmap(Direct, n, t, i)
  {
    PowerOfTwoIs(n);
    if !IsPowerOfTwo(n) {
      return Direct;
    }
    var shift := Ilog2(n);
    s := DirectBinary(n - 1, shift);
    var k := ExponentOf(n);
    ExactLog(n, k, shift);
    forall a
      ensures Map(s, n, a) == Map(Direct, n, a)
    {
      ShrIsDiv(a, k);
      AndIsMod(a, k);
    }
    forall t, i: nat | i < n
      ensures Unmap(s, n, t, i) == Unmap(Direct, n, t, i)
    {
      OrDisjoint(i, t, k);
      OrCommutes(Shl(t, k), i);
      ShlIsMul(t, k);
    }
  }

  // The selector for a name; None for a name that is not known.
  method MakeSelector(name: string, n: nat) returns (s: Option<Selector>)
    requires n > 0
    ensures n == 1 || name == "ZERO" ==> s == Some(Zero)
    ensures n > 1 && name == "DIRECT" ==> s.Some? && IsSimple(s.value) && forall a :: Map(s.value, n, a) == Map(Direct, n, a)
    ensures n > 1 && name != "ZERO" && name != "DIRECT" ==>
      s == if name == "RMIX" then Some(RotationMix) else if name == "XORFOLD" then Some(XorFold)
        else if name == "ADDFOLD" then Some(AddFold) else if name == "XORLSB" then Some(RightXor)
        else if name == "ADDLSB" then Some(RightAdd) else None
  {
    if n == 1 || name == "ZERO" {
      return Some(Zero);
    }
    if name == "DIRECT" {
      var d := MakeDirect(n);
      s := Some(d);
    } else if name == "RMIX" {
      s := Some(RotationMix);
    } else if name == "XORFOLD" {
      s := Some(XorFold);
    } else if name == "ADDFOLD" {
      s := Some(AddFold);
    } else if name == "XORLSB" {
      s := Some(RightXor);
    } else if name == "ADDLSB" {
      s := Some(RightAdd);
    } else {
      s := None;
    }
  }

  lemma ExactLog(n: nat, k: nat, l: nat)
    requires n == Pow2(k) <= Pow2(l) && forall j: nat :: j < l ==> Pow2(j) < n
    ensures l == k
  {
    if l < k {
      Pow2Strict(l, k);
    }
  }

  lemma {:induction false} Pow2Strict(l: nat, k: nat)
    requires l < k
    ensures Pow2(l) < Pow2(k)
  {
    if l + 1 < k {
      Pow2Strict(l, k - 1);
    }
  }

  // Tag and bank together are the address, with every selector that has no loop; the fast form of the
  // direct one does what the slow one does.
  lemma MapUnmap(s: Selector, n: nat, address: nat)
    requires n > 0 && IsSimple(s) && !s.DirectBinary?
    ensures var (tag, index) := Map(s, n, address); index < n && Unmap(s, n, tag, index) == address
  {
    DivMod(address, n);
  }

  // With the direct selector every tag and bank is that of an address.
  lemma UnmapMap(n: nat, tag: nat, index: nat)
    requires index < n
    ensures Map(Direct, n, Unmap(Direct, n, tag, index)) == (tag, index)
  {
    ModUnique(tag * n + index, tag, index, n);
  }

  // ----- every aligned block of n lines goes to n different banks

  // Two numbers less than n apart with the same remainder are the same.
  lemma SameModulo(x: nat, y: nat, n: nat, p: nat, q: nat, r: nat)
    requires x <= y < x + n && x == p * n + r && y == q * n + r
    ensures x == y
  {
    if p < q {
      MulLe(p + 1, q, n);
    } else {
      MulLe(q, p, n);
    }
  }

  lemma AddIsInjective(n: nat, c: nat, i: nat, j: nat)
    requires i <= j < n && (i + c) % n == (j + c) % n
    ensures i == j
  {
    DivMod(i + c, n);
    DivMod(j + c, n);
    SameModulo(i + c, j + c, n, (i + c) / n, (j + c) / n, (i + c) % n);
  }

  lemma InBlock(n: nat, m: nat, i: nat)
    requires i < n
    ensures (m * n + i) / n == m && (m * n + i) % n == i
  {
    ModUnique(m * n + i, m, i, n);
  }

  lemma RightAddSpreads(n: nat, m: nat, i: nat, j: nat)
    requires i <= j < n && Map(RightAdd, n, m * n + i).1 == Map(RightAdd, n, m * n + j).1
    ensures i == j
  {
    InBlock(n, m, i);
    InBlock(n, m, j);
    AddIsInjective(n, m * n + m, i, j);
  }

  lemma {:induction false} XorMod(x: nat, y: nat, k: nat)
    ensures Xor(x, y) % Pow2(k) == Xor(x % Pow2(k), y % Pow2(k))
    decreases k
  {
    if k == 0 {
      assert Xor(0, 0) == 0;
    } else {
      var p := Pow2(k - 1);
      XorMod(x / 2, y / 2, k - 1);
      XorHalves(x, y);
      DivDiv(Xor(x, y), 2, p);
      DivDiv(x, 2, p);
      DivDiv(y, 2, p);
      XorHalves(x % Pow2(k), y % Pow2(k));
    }
  }

  lemma XorHalves(x: nat, y: nat)
    ensures Xor(x, y) / 2 == Xor(x / 2, y / 2) && Xor(x, y) % 2 == (if x % 2 != y % 2 then 1 else 0)
    ensures Xor(x, y) == 2 * Xor(x / 2, y / 2) + (if x % 2 != y % 2 then 1 else 0)
  {
    assert Xor(0, 0) == 0;
  }

  lemma {:induction false} XorCancels(x: nat, c: nat)
    ensures Xor(Xor(x, c), c) == x
    decreases x + c
  {
    if x > 0 || c > 0 {
      XorHalves(x, c);
      XorHalves(Xor(x, c), c);
      XorCancels(x / 2, c / 2);
    }
  }

  lemma RightXorSpreads(k: nat, m: nat, i: nat, j: nat)
    requires i < Pow2(k) && j < Pow2(k)
    requires var n := Pow2(k); Map(RightXor, n, m * n + i).1 == Map(RightXor, n, m * n + j).1
    ensures i == j
  {
    hide Pow2, Xor;
    var n, c := Pow2(k), m % Pow2(k);
    InBlock(n, m, i);
    InBlock(n, m, j);
    XorMod(m * n + i, m, k);
    XorMod(m * n + j, m, k);
    XorCancels(i, c);
    XorCancels(j, c);
  }

  // The bank is that of the lowest digit of the address in base n, by itself or together with the
  // second: their sum modulo n, or for a power of two their exclusive or.
  lemma BankIsOfDigits(n: nat, k: nat, a: nat)
    requires n > 0
    ensures Map(Zero, n, a) == (a, 0)
    ensures Map(Direct, n, a).1 == a % n && Map(Direct, n, a).0 * n + a % n == a
    ensures Map(RightAdd, n, a) == (a, (a % n + a / n % n) % n)
    ensures n == Pow2(k) ==> Map(RightXor, n, a) == (a, Xor(a % n, a / n % n))
    ensures Map(RightXor, n, a) == (a, Xor(a, a / n) % n)
  {
    hide Xor, Pow2;
    DivMod(a, n);
    ModUnique(a / n % n, 0, a / n % n, n);
    AddMod(n, a, a / n, a / n % n);
    if n == Pow2(k) {
      XorMod(a, a / n, k);
    }
  }

  // ----- the folds

  // The quotients a fold adds after the address itself: it goes on while the next is above n.
  ghost function Quotients(n: nat, q: nat): seq<nat>
    requires n >= 2
    decreases q
  {
    if q > n then [q] + Quotients(n, q / n) else []
  }

  ghost function Visits(n: nat, a: nat): seq<nat>
    requires n >= 2
  {
    [a] + Quotients(n, a / n)
  }

  // What is left of the address when the fold stops.
  ghost function RestOf(n: nat, q: nat): nat
    requires n >= 2
    decreases q
  {
    if q > n then RestOf(n, q / n) else q
  }

  ghost function Rest(n: nat, a: nat): nat
    requires n >= 2
  {
    RestOf(n, a / n)
  }

  ghost function Remainders(v: seq<nat>, n: nat): (d: seq<nat>)
    requires n > 0
    ensures |d| == |v| && forall i :: 0 <= i < |d| ==> d[i] == v[i] % n < n
  {
    seq<nat>(|v|, i requires 0 <= i < |v| => v[i] % n)
  }

  // The base-n digits that a fold visits.
  ghost function Digits(n: nat, a: nat): seq<nat>
    requires n >= 2
  {
    Remainders(Visits(n, a), n)
  }

  ghost function Number(n: nat, digits: seq<nat>, rest: nat): nat {
    if digits == [] then rest else digits[0] + Number(n, digits[1..], rest) * n
  }

  lemma RemaindersOfMore(v: seq<nat>, a: nat, n: nat)
    requires n > 0
    ensures Remainders([a] + v, n) == [a % n] + Remainders(v, n)
  {
  }

  lemma NumberOfMore(n: nat, digit: nat, digits: seq<nat>, rest: nat)
    ensures Number(n, [digit] + digits, rest) == digit + Number(n, digits, rest) * n
  {
    assert ([digit] + digits)[1..] == digits;
  }

  lemma {:induction false} NumberOfQuotients(n: nat, q: nat)
    requires n >= 2
    ensures Number(n, Remainders(Quotients(n, q), n), RestOf(n, q)) == q
    decreases q
  {
    if q > n {
      DivLess(q, n);
      NumberOfQuotients(n, q / n);
      PutDigit(n, q, Quotients(n, q / n), RestOf(n, q / n));
    }
  }

  lemma PutDigit(n: nat, q: nat, v: seq<nat>, rest: nat)
    requires n > 0 && Number(n, Remainders(v, n), rest) == q / n
    ensures Number(n, Remainders([q] + v, n), rest) == q
  {
    hide Number, Remainders;
    RemaindersOfMore(v, q, n);
    NumberOfMore(n, q % n, Remainders(v, n), rest);
    DivMod(q, n);
  }

  // The digits visited, with the rest above them, make up the address.
  lemma DigitsOfAddress(n: nat, a: nat)
    requires n >= 2
    ensures Number(n, Digits(n, a), Rest(n, a)) == a
  {
    hide Number, Remainders;
    NumberOfQuotients(n, a / n);
    PutDigit(n, a, Quotients(n, a / n), Rest(n, a));
  }

  lemma {:induction false} RestIsLeft(n: nat, q: nat)
    requires n >= 2
    ensures RestOf(n, q) == 0 <==> q == 0
    decreases q
  {
    if q > n {
      DivLess(q, n);
      NotZero(n, q);
      RestIsLeft(n, q / n);
    }
  }

  lemma NotZero(n: nat, q: nat)
    requires n > 0
    ensures q / n == 0 <==> q < n
  {
    DivMod(q, n);
    if q < n {
      ModUnique(q, 0, q, n);
    }
  }

  // The folds are meant to use the whole address. They do so exactly for addresses below n: for
  // any other they stop before its highest digits.
  lemma FoldUsesWholeAddress(n: nat, a: nat)
    requires n >= 2
    ensures Rest(n, a) == 0 <==> a < n
  {
    RestIsLeft(n, a / n);
    NotZero(n, a);
  }

  // Whatever the rest of an address is, any of 2 to n in its place leaves the digits visited as they
  // are, and with them the bank, which both folds make of the digits alone.
  lemma RestDoesNotCount(n: nat, a: nat, rest: nat)
    requires n >= 2 && 2 <= rest <= n
    ensures var b := Number(n, Digits(n, a), rest); Digits(n, b) == Digits(n, a) && Rest(n, b) == rest
  {
    hide Number, Remainders, Quotients, RestOf;
    var v := Quotients(n, a / n);
    var m := Number(n, Remainders(v, n), rest);
    RemaindersOfMore(v, a, n);
    NumberOfMore(n, a % n, Remainders(v, n), rest);
    var b := a % n + m * n;
    ModUnique(b, m, a % n, n);
    QuotientsRebuilt(n, a / n, rest);
    RemaindersOfMore(Quotients(n, m), b, n);
  }

  lemma {:induction false} QuotientsRebuilt(n: nat, q: nat, rest: nat)
    requires n >= 2 && 2 <= rest <= n
    ensures var m := Number(n, Remainders(Quotients(n, q), n), rest);
      m >= 2 && Remainders(Quotients(n, m), n) == Remainders(Quotients(n, q), n) && RestOf(n, m) == rest
    decreases q
  {
    hide Number, Remainders, Quotients, RestOf;
    QuotientsStep(n, q);
    if q <= n {
      NothingVisited(n, rest);
    } else {
      DivLess(q, n);
      QuotientsRebuilt(n, q / n, rest);
      var v := Quotients(n, q / n);
      var m := Number(n, Remainders(v, n), rest);
      RemaindersOfMore(v, q, n);
      NumberOfMore(n, q % n, Remainders(v, n), rest);
      var b := q % n + m * n;
      ModUnique(b, m, q % n, n);
      MulLe(2, m, n);
      QuotientsStep(n, b);
      RemaindersOfMore(Quotients(n, m), b, n);
    }
  }

  lemma NothingVisited(n: nat, rest: nat)
    requires n >= 2 && rest <= n
    ensures Remainders([], n) == [] && Number(n, [], rest) == rest && Quotients(n, rest) == [] && RestOf(n, rest) == rest
  {
  }

  // With four banks the folds give addresses 8 and 16 the same bank.
  lemma SameBankTwice()
    ensures Digits(4, 8) == Digits(4, 16) == [0] && Rest(4, 8) == 2 && Rest(4, 16) == 4
  {
    hide Quotients;
    QuotientsStep(4, 2);
    QuotientsStep(4, 4);
  }

  ghost function Sum(v: seq<nat>): nat {
    if v == [] then 0 else v[0] + Sum(v[1..])
  }

  ghost function XorAll(v: seq<nat>): nat {
    if v == [] then 0 else Xor(v[0], XorAll(v[1..]))
  }

  lemma QuotientsStep(n: nat, a: nat)
    requires n >= 2
    ensures Quotients(n, a) == if a > n then [a] + Quotients(n, a / n) else []
    ensures RestOf(n, a) == if a > n then RestOf(n, a / n) else a
  {
  }

  lemma AllOfMore(a: nat, v: seq<nat>)
    ensures Sum([a] + v) == a + Sum(v) && XorAll([a] + v) == Xor(a, XorAll(v))
  {
    assert ([a] + v)[1..] == v;
  }

  lemma AllOfNone()
    ensures Sum([]) == 0 && XorAll([]) == 0
  {
  }

  // Modulo n, numbers add up as their remainders do.
  lemma {:induction false} SumOfRemainders(v: seq<nat>, n: nat)
    requires n > 0
    ensures Sum(v) % n == Sum(Remainders(v, n)) % n
  {
    if v != [] {
      SumOfRemainders(v[1..], n);
      assert Remainders(v, n)[1..] == Remainders(v[1..], n);
      AddMod(n, v[0], Sum(v[1..]), Sum(Remainders(v[1..], n)));
    }
  }

  lemma AddMod(n: nat, a: nat, x: nat, y: nat)
    requires n > 0 && x % n == y % n
    ensures (a + x) % n == (a % n + y) % n
  {
    var r := x % n;
    DivMod(a, n);
    DivMod(x, n);
    DivMod(y, n);
    Multiples(a / n, x / n, n);
    SameRemainder(n, a + x, a % n + r, a / n + x / n);
    SameRemainder(n, a % n + y, a % n + r, y / n);
  }

  lemma Multiples(p: nat, q: nat, n: nat)
    ensures p * n + q * n == (p + q) * n
  {
  }

  lemma SameRemainder(n: nat, x: nat, s: nat, k: nat)
    requires n > 0 && x == k * n + s
    ensures x % n == s % n
  {
    DivMod(s, n);
    Multiples(k, s / n, n);
    ModUnique(x, k + s / n, s % n, n);
  }

  // Bit by bit, so do exclusive ors with a power of two.
  lemma {:induction false} XorOfRemainders(v: seq<nat>, k: nat)
    ensures XorAll(v) % Pow2(k) == XorAll(Remainders(v, Pow2(k)))
  {
    if v == [] {
      ModSmall(0, Pow2(k));
    } else {
      XorOfRemainders(v[1..], k);
      assert Remainders(v, Pow2(k))[1..] == Remainders(v[1..], Pow2(k));
      XorMod(v[0], XorAll(v[1..]), k);
    }
  }

  lemma {:induction false} XorAssociates(x: nat, y: nat, z: nat)
    ensures Xor(Xor(x, y), z) == Xor(x, Xor(y, z))
    decreases x + y + z
  {
    if x > 0 || y > 0 || z > 0 {
      XorHalves(x, y);
      XorHalves(y, z);
      XorHalves(Xor(x, y), z);
      XorHalves(x, Xor(y, z));
      XorAssociates(x / 2, y / 2, z / 2);
    }
  }

  lemma {:induction false} XorZero(x: nat)
    ensures Xor(x, 0) == x
  {
    if x > 0 {
      XorZero(x / 2);
    }
  }

  method MapAddFold(n: nat, address: nat) returns (tag: nat, index: nat)
    requires n >= 2
    ensures tag == address && index == Sum(Digits(n, address)) % n
  {
    hide Sum, Quotients, Remainders;
    tag := address;
    var result: nat, a: nat := address, address / n;
    AllOfMore(address, Quotients(n, a));
    while a > n
      invariant result + Sum(Quotients(n, a)) == Sum(Visits(n, address))
      decreases a
    {
      DivLess(a, n);
      QuotientsStep(n, a);
      AllOfMore(a, Quotients(n, a / n));
      result := result + a;
      a := a / n;
    }
    QuotientsStep(n, a);
    AllOfNone();
    index := result % n;
    SumOfRemainders(Visits(n, address), n);
  }

  // With a power of two of banks, the exclusive or may be taken digit by digit.
  method MapXorFold(n: nat, ghost k: nat, address: nat) returns (tag: nat, index: nat)
    requires n >= 2
    ensures tag == address && index == XorAll(Visits(n, address)) % n
    ensures n == Pow2(k) ==> index == XorAll(Digits(n, address))
  {
    hide XorAll, Quotients, Remainders, Xor, Pow2;
    tag := address;
    var result: nat, a: nat := address, address / n;
    AllOfMore(address, Quotients(n, a));
    while a > n
      invariant Xor(result, XorAll(Quotients(n, a))) == XorAll(Visits(n, address))
      decreases a
    {
      DivLess(a, n);
      QuotientsStep(n, a);
      AllOfMore(a, Quotients(n, a / n));
      XorAssociates(result, a, XorAll(Quotients(n, a / n)));
      result := Xor(result, a);
      a := a / n;
    }
    QuotientsStep(n, a);
    AllOfNone();
    XorZero(result);
    index := result % n;
    if n == Pow2(k) {
      XorOfRemainders(Visits(n, address), k);
    }
  }
}
