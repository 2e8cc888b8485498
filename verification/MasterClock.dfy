// sim/kernel.cpp: the master frequency, which the frequency of every clock divides.
module MasterClock {
  import opened Arith

  predicate Divides(d: nat, n: nat)
    requires d > 0
  {
    n % d == 0
  }

  lemma Quotient(d: nat, n: nat)
    requires d > 0 && Divides(d, n)
    ensures n == n / d * d
  {
  }

  lemma DividesBy(d: nat, n: nat, k: int)
    requires d > 0 && n == k * d
    ensures Divides(d, n) && n / d == k
  {
    MulMod(k, d);
  }

  // A combination of multiples is a multiple.
  lemma DividesCombination(d: nat, a: nat, b: nat, s: int, t: int, n: nat)
    requires d > 0 && Divides(d, a) && Divides(d, b) && n == s * a + t * b
    ensures Divides(d, n)
  {
    var x, y := a / d, b / d;
    Quotient(d, a);
    Quotient(d, b);
    Combine(s, x, t, y, d);
    DividesBy(d, n, s * x + t * y);
  }

  lemma Combine(s: int, x: int, t: int, y: int, d: int)
    ensures s * (x * d) + t * (y * d) == (s * x + t * y) * d
  {
    assert s * (x * d) == (s * x) * d;
    assert t * (y * d) == (t * y) * d;
  }

  // ----- Euclid's algorithm

  function Gcd(a: nat, b: nat): nat
    decreases b
  {
    if b == 0 then a else Gcd(b, a % b)
  }

  method ComputeGcd(x: nat, y: nat) returns (a: nat)
    ensures a == Gcd(x, y)
  {
    a := x;
    var b: nat := y;
    while b != 0
      invariant Gcd(a, b) == Gcd(x, y)
      decreases b
    {
      a, b := b, a % b;
    }
  }

  // The result divides both numbers and is a combination of them.
  lemma {:induction false} Bezout(a: nat, b: nat) returns (s: int, t: int)
    requires a > 0 || b > 0
    ensures Gcd(a, b) > 0 && Divides(Gcd(a, b), a) && Divides(Gcd(a, b), b) && s * a + t * b == Gcd(a, b)
    decreases b
  {
    if b == 0 {
      s, t := 1, 0;
      DividesBy(a, a, 1);
    } else {
      var s', t' := Bezout(b, a % b);
      var g, q := Gcd(a, b), a / b;
      hide Gcd, Divides;
      assert a == q * b + 1 * (a % b);
      DividesCombination(g, b, a % b, q, 1, a);
      s, t := t', s' - t' * q;
      Substitute(s', t', q, a % b, b);
    }
  }

  lemma Substitute(s: int, t: int, q: int, r: int, b: int)
    ensures t * (q * b + r) + (s - t * q) * b == s * b + t * r
  {
    assert t * (q * b) == (t * q) * b;
  }

  // Every common divisor divides it.
  lemma GcdIsGreatest(a: nat, b: nat, d: nat)
    requires (a > 0 || b > 0) && d > 0 && Divides(d, a) && Divides(d, b)
    ensures Divides(d, Gcd(a, b))
  {
    var s, t := Bezout(a, b);
    DividesCombination(d, a, b, s, t, Gcd(a, b));
  }

  // ----- the least common multiple

  function Lcm(a: nat, b: nat): nat
    requires a > 0 && b > 0
  {
    if Gcd(a, b) == 0 then 0 else a * b / Gcd(a, b)
  }

  method ComputeLcm(a: nat, b: nat) returns (l: nat)
    requires a > 0 && b > 0
    ensures l == Lcm(a, b) && l > 0
  {
    LcmIsMultiple(a, b);
    var g := ComputeGcd(a, b);
    l := a * b / g;
  }

  lemma LcmOfNone()
    ensures IsLcm(1, [])
  {
  }

  // With a common divisor taken out, the product of two numbers is a multiple of both.
  lemma Reduced(a: nat, b: nat, g: nat)
    requires a > 0 && b > 0 && g > 0 && Divides(g, a) && Divides(g, b)
    ensures a * b == a * (b / g) * g && a * b / g == a * (b / g) && a * (b / g) == a / g * b
    ensures a * (b / g) > 0
  {
    Quotient(g, a);
    Quotient(g, b);
    var x, y := a / g, b / g;
    assert a * b == a * (y * g) == a * y * g;
    DividesBy(g, a * b, a * y);
    assert a * y == x * g * y == x * (y * g) == x * b;
  }

  lemma LcmIsMultiple(a: nat, b: nat)
    requires a > 0 && b > 0
    ensures Gcd(a, b) > 0 && Lcm(a, b) > 0 && Divides(a, Lcm(a, b)) && Divides(b, Lcm(a, b))
  {
    var s, t := Bezout(a, b);
    var g := Gcd(a, b);
    hide Gcd, Divides;
    Reduced(a, b, g);
    DividesBy(a, Lcm(a, b), b / g);
    DividesBy(b, Lcm(a, b), a / g);
  }

  // It divides every common multiple.
  lemma LcmIsLeast(a: nat, b: nat, n: nat)
    requires a > 0 && b > 0 && Divides(a, n) && Divides(b, n)
    ensures Lcm(a, b) > 0 && Divides(Lcm(a, b), n)
  {
    LcmIsMultiple(a, b);
    var s, t := Bezout(a, b);
    var g, l, x, y := Gcd(a, b), Lcm(a, b), n / a, n / b;
    hide Gcd, Divides;
    Reduced(a, b, g);
    Quotient(a, n);
    Quotient(b, n);
    assert a * b == l * g;
    Multiples(a, b, s, t, g, l, x, y, n);
    DividesBy(l, n, s * y + t * x);
  }

  lemma Multiples(a: int, b: int, s: int, t: int, g: int, l: int, x: int, y: int, n: int)
    requires a * b == l * g && n == x * a == y * b && s * a + t * b == g && g != 0
    ensures n == (s * y + t * x) * l
  {
    Regroup(s, a, y, b, l, g);
    Regroup(t, b, x, a, l, g);
    assert n * g == (s * a) * n + (t * b) * n;
    Cancel(n, s * y * l + t * x * l, g);
  }

  lemma Regroup(s: int, a: int, y: int, b: int, l: int, g: int)
    requires a * b == l * g
    ensures (s * a) * (y * b) == (s * y * l) * g
  {
    calc {
      (s * a) * (y * b);
      (s * y) * (a * b);
      (s * y) * (l * g);
      (s * y * l) * g;
    }
  }

  lemma Cancel(m: int, n: int, g: int)
    requires m * g == n * g && g != 0
    ensures m == n
  {
    assert (m - n) * g == 0;
  }

  // ----- clocks

  // The number divides every common multiple of the frequencies, and is one itself.
  ghost predicate IsLcm(m: nat, fs: seq<nat>) {
    && m > 0 && (forall i :: 0 <= i < |fs| ==> fs[i] > 0 && Divides(fs[i], m))
    && forall n: nat :: n > 0 && (forall i :: 0 <= i < |fs| ==> fs[i] > 0 && Divides(fs[i], n)) ==> Divides(m, n)
  }

  lemma DividesTransitive(a: nat, b: nat, c: nat)
    requires a > 0 && b > 0 && Divides(a, b) && Divides(b, c)
    ensures Divides(a, c)
  {
    Quotient(a, b);
    Quotient(b, c);
    assert c / b * (b / a * a) == c / b * (b / a) * a;
    DividesBy(a, c, c / b * (b / a));
  }

  lemma IsLcmOfMore(m: nat, fs: seq<nat>, f: nat)
    requires IsLcm(m, fs) && f > 0
    ensures IsLcm(Lcm(m, f), fs + [f])
  {
    hide Lcm, Divides;
    var l, gs := Lcm(m, f), fs + [f];
    LcmIsMultiple(m, f);
    forall i | 0 <= i < |gs|
      ensures gs[i] > 0 && Divides(gs[i], l)
    {
      if i < |fs| {
        DividesTransitive(fs[i], m, l);
      }
    }
    forall n: nat | n > 0 && forall i :: 0 <= i < |gs| ==> gs[i] > 0 && Divides(gs[i], n)
      ensures Divides(l, n)
    {
      assert forall i :: 0 <= i < |fs| ==> gs[i] == fs[i];
      assert gs[|fs|] == f;
      LcmIsLeast(m, f, n);
    }
  }

  lemma LcmAt(m: nat, fs: seq<nat>, i: nat)
    requires IsLcm(m, fs) && i < |fs|
    ensures fs[i] > 0 && m / fs[i] * fs[i] == m
  {
    Quotient(fs[i], m);
  }

  class Clock {
    const frequency: nat
    var period: nat

    constructor (frequency: nat, period: nat)
      ensures this.frequency == frequency && this.period == period
    {
      this.frequency, this.period := frequency, period;
    }
  }

  ghost function FrequenciesOf(clocks: seq<Clock>): (fs: seq<nat>)
    ensures |fs| == |clocks| && forall i :: 0 <= i < |fs| ==> fs[i] == clocks[i].frequency
  {
    seq<nat>(|clocks|, i requires 0 <= i < |clocks| => clocks[i].frequency)
  }

  class Kernel {
    var masterFreq: nat
    var clocks: seq<Clock>

    ghost function Frequencies(): seq<nat>
      reads `clocks
    {
      FrequenciesOf(clocks)
    }

    // One clock for each frequency, each ticking as often as its frequency says.
    ghost predicate Valid()
      reads this, clocks
    {
      && (forall i, j :: 0 <= i < j < |clocks| ==> clocks[i].frequency != clocks[j].frequency)
      && (clocks != [] ==> IsLcm(masterFreq, Frequencies()))
      && (forall i :: 0 <= i < |clocks| ==> clocks[i].period * clocks[i].frequency == masterFreq)
    }

    constructor ()
      ensures Valid() && clocks == []
    {
      masterFreq, clocks := 0, [];
    }

    // Looks for a clock of this frequency, on the way to the least common multiple of them all.
    method CommonMultiple(frequency: nat) returns (found: nat, m: nat)
      requires Valid() && frequency > 0
      ensures found <= |clocks| && forall i :: 0 <= i < found ==> clocks[i].frequency != frequency
      ensures found < |clocks| ==> clocks[found].frequency == frequency
      ensures found == |clocks| ==> IsLcm(m, Frequencies() + [frequency])
    {
      hide IsLcm, Lcm, Gcd;
      ghost var fs := Frequencies();
      FrequenciesPositive();
      LcmOfNone();
      m, found := 1, 0;
      while found < |clocks|
        invariant found <= |clocks| && m > 0 && IsLcm(m, fs[..found])
        invariant forall i :: 0 <= i < found ==> clocks[i].frequency != frequency
      {
        var f := clocks[found].frequency;
        if f == frequency {
          return;
        }
        IsLcmOfMore(m, fs[..found], f);
        assert fs[..found + 1] == fs[..found] + [f];
        m := ComputeLcm(m, f);
        found := found + 1;
      }
      assert fs[..found] == fs;
      IsLcmOfMore(m, fs, frequency);
      m := ComputeLcm(m, frequency);
    }

    // Takes a new master frequency and brings the periods in line with it.
    method SetMaster(master: nat, ghost frequency: nat)
      requires Valid() && IsLcm(master, Frequencies() + [frequency])
      requires forall i :: 0 <= i < |clocks| ==> clocks[i].frequency != frequency
      modifies this`masterFreq, clocks`period
      ensures masterFreq == master && forall i :: 0 <= i < |clocks| ==> clocks[i].period * clocks[i].frequency == masterFreq
    {
      hide IsLcm;
      ghost var fs := Frequencies() + [frequency];
      if masterFreq != master {
        masterFreq := master;
        for k := 0 to |clocks|
          invariant masterFreq == master
          invariant forall i :: 0 <= i < k ==> clocks[i].period * clocks[i].frequency == masterFreq
        {
          var f := clocks[k].frequency;
          LcmAt(master, fs, k);
          clocks[k].period := master / f;
        }
      }
    }

    // A clock of a frequency, made if there is none yet.
    method CreateClock(frequency: nat) returns (clock: Clock)
      requires Valid() && frequency > 0
      modifies this, clocks
      ensures Valid() && clock in clocks && clock.frequency == frequency
      ensures if exists i :: 0 <= i < old(|clocks|) && old(clocks)[i].frequency == frequency
        then clocks == old(clocks) && masterFreq == old(masterFreq) && forall i :: 0 <= i < |clocks| ==> clocks[i].period == old(clocks[i].period)
        else clocks == old(clocks) + [clock] && fresh(clock)
    {
      hide IsLcm, Divides;
      var found, master := CommonMultiple(frequency);
      if found < |clocks| {
        return clocks[found];
      }
      ghost var fs := Frequencies() + [frequency];
      LcmAt(master, fs, |clocks|);
      SetMaster(master, frequency);
      clock := new Clock(frequency, masterFreq / frequency);
      clocks := clocks + [clock];
      assert Frequencies() == fs;
    }

    lemma FrequenciesPositive()
      requires Valid()
      ensures forall i :: 0 <= i < |clocks| ==> clocks[i].frequency > 0
    {
      assert forall i :: 0 <= i < |clocks| ==> Frequencies()[i] > 0;
    }
  }
}
