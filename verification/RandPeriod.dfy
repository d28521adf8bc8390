/** 16807 is a primitive root of 2^31 - 1: a run of rand takes every value from 1
    to 2^31 - 2 before it repeats. */
module RandPeriod {

  import opened CInt
  import opened Rand
  import opened RandTable

  /** The prime factors of N, in order. */
  const FACTORS: seq<nat> := [2, 3, 3, 7, 11, 31, 151, 331]

  // ---- primes ----

  predicate Divides(e: nat, p: nat) {
    e > 0 && p % e == 0
  }

  predicate IsPrime(p: nat) {
    p >= 2 && forall e :: 2 <= e < p ==> !Divides(e, p)
  }

  lemma CoFactor(p: nat, e: nat) returns (f: nat)
    requires 2 <= e < p && Divides(e, p)
    ensures p == f * e && 2 <= f < p && Divides(f, p)
  {
    f := p / e;
    Divided(p, e);
    if f <= 1 { TimesMono(f, 1, e); }
    TimesMono(2, e, f);
    MultipleMod(e, f);
  }

  lemma BothAbove(d: nat, e: nat, f: nat)
    requires d < e && d < f
    ensures (d + 1) * (d + 1) <= e * f
  {
    TimesMono(d + 1, e, d + 1);
    TimesMono(d + 1, f, e);
  }

  /** It is enough to try divisors up to the root. */
  lemma SmallDivisors(p: nat, d: nat)
    requires 2 <= p < (d + 1) * (d + 1) && forall e :: 2 <= e <= d && e < p ==> !Divides(e, p)
    ensures IsPrime(p)
  {
    forall e | 2 <= e < p ensures !Divides(e, p) {
      if Divides(e, p) {
        var f := CoFactor(p, e);
        if d < e && d < f { BothAbove(d, f, e); }
      }
    }
  }

  function Gcd(a: nat, b: nat): nat
    decreases b
  {
    if b == 0 then a else Gcd(b, a % b)
  }

  /** The greatest common divisor divides both and is a combination of them. */
  lemma {:induction false} Bezout(a: nat, b: nat) returns (u: int, v: int, x: nat, y: nat)
    requires a > 0 || b > 0
    ensures Gcd(a, b) > 0 && u * a + v * b == Gcd(a, b)
    ensures a == x * Gcd(a, b) && b == y * Gcd(a, b)
    decreases b
  {
    if b == 0 {
      u, v, x, y := 1, 0, 1, 0;
    } else {
      Divided(a, b);
      var q, g := a / b, Gcd(a, b);
      var u', v', x', y' := Bezout(b, a % b);
      assert Gcd(b, a % b) == g;
      Combine(a, b, q, a % b, g, u', v', x', y');
      u, v := v', u' - q * v';
      assert q * x' >= 0;
      x, y := q * x' + y', x';
    }
  }

  /** One step of the algorithm of Euclid. */
  lemma Combine(a: int, b: int, q: int, r: int, g: int, u: int, v: int, x: int, y: int)
    requires a == q * b + r && u * b + v * r == g && b == x * g && r == y * g
    ensures v * a + (u - q * v) * b == g && a == (q * x + y) * g
  {
    assert v * a == v * (q * b) + v * r;
    assert (u - q * v) * b == u * b - q * v * b;
    assert q * b == q * x * g;
  }

  /** A prime that divides a product divides one of the factors. */
  lemma Euclid(p: nat, k: nat, g: nat, w: nat)
    requires IsPrime(p) && k * g == p * w
    ensures k % p == 0 || g % p == 0
  {
    var u, v, x, y := Bezout(p, k);
    var d := Gcd(p, k);
    if d == 1 {
      assert g == u * p * g + v * (k * g);
      assert g == (u * g + v * w) * p;
      MultipleMod(u * g + v * w, p);
    } else {
      if x >= 2 {
        TimesMono(2, x, d);
        MultipleMod(x, d);
        assert Divides(d, p);
      }
      assert x == 1 && d == p;
      MultipleMod(y, p);
    }
  }

  function Product(ps: seq<nat>): nat {
    if ps == [] then 1 else ps[0] * Product(ps[1..])
  }

  /** A divisor greater than one of a product of primes is divided by one of them. */
  lemma {:induction false} SomePrime(k: nat, g: nat, ps: seq<nat>) returns (i: nat)
    requires k > 1 && k * g == Product(ps) && forall j :: 0 <= j < |ps| ==> IsPrime(ps[j])
    ensures i < |ps| && ps[i] > 0 && k % ps[i] == 0
    decreases |ps|
  {
    i := 0;
    if ps == [] {
      if g >= 1 { TimesMono(1, g, k); }
      assert false;
    } else {
      var p, w := ps[0], Product(ps[1..]);
      Euclid(p, k, g, w);
      if k % p == 0 {
        i := 0;
      } else {
        Divided(g, p);
        var h := g / p;
        assert k * h * p == w * p;
        Cancel(k * h, w, p);
        i := SomePrime(k, h, ps[1..]);
        i := i + 1;
      }
    }
  }

  // ---- returns to the first seed ----

  /** After `n` steps the run is back at 1. */
  predicate Returns(n: nat) {
    Nth(1, n) == 1
  }

  lemma {:induction false} ReturnsMultiple(n: nat, k: nat)
    requires Returns(n)
    ensures Returns(k * n)
  {
    if k == 0 {
    } else {
      ReturnsMultiple(n, k - 1);
      assert k * n == (k - 1) * n + n;
      Onwards(1, (k - 1) * n, n);
    }
  }

  lemma ReturnsMod(a: nat, b: nat)
    requires Returns(a) && Returns(b) && b > 0
    ensures Returns(a % b)
  {
    Divided(a, b);
    ReturnsMultiple(b, a / b);
    PureCycle(1, a / b * b, a);
  }

  lemma {:induction false} ReturnsGcd(a: nat, b: nat)
    requires Returns(a) && Returns(b)
    ensures Returns(Gcd(a, b))
    decreases b
  {
    if b == 0 {
    } else {
      ReturnsMod(a, b);
      ReturnsGcd(b, a % b);
    }
  }

  // ---- the period ----

  lemma FactorsOk()
    ensures Product(FACTORS) == N && forall i :: 0 <= i < |FACTORS| ==> IsPrime(FACTORS[i])
  {
    SmallDivisors(7, 2);
    SmallDivisors(11, 3);
    SmallDivisors(31, 5);
    SmallDivisors(151, 12);
    SmallDivisors(331, 18);
    assert FACTORS[1..] == [3, 3, 7, 11, 31, 151, 331];
    assert Product([151, 331]) == 49981;
    assert Product([11, 31, 151, 331]) == 341 * 49981;
    assert Product([3, 7, 11, 31, 151, 331]) == 21 * (341 * 49981);
  }

  /** N divided by a prime factor does not lead back. */
  lemma ShortJumps(i: nat)
    requires i < |FACTORS|
    ensures !Returns(N / FACTORS[i])
  {
    WholeJump();
    Jump3();
    Jump7();
    Jump11();
    Jump31();
    Jump151();
    Jump331();
    var n := N / FACTORS[i];
    var x :| At(n, x) && x != 1;
    BackAt(n, x);
  }

  /** The run from 1 comes back after N steps and not before. */
  lemma FullPeriod(n: nat)
    ensures Returns(n) <==> n % N == 0
  {
    hide Returns, Product, IsPrime;
    WholeJump();
    BackAt(N, 1);
    Divided(n, N);
    if n % N == 0 {
      ReturnsMultiple(N, n / N);
    }
    if Returns(n) {
      ReturnsGcd(n, N);
      var u, v, x, k := Bezout(n, N);
      var g := Gcd(n, N);
      if k > 1 {
        FactorsOk();
        var i := SomePrime(k, g, FACTORS);
        PartReturns(k, g, FACTORS[i]);
        ShortJumps(i);
        assert false;
      }
      assert g == N;
      MultipleMod(x, N);
    }
  }

  lemma BackAt(n: nat, x: int)
    requires At(n, x)
    ensures Returns(n) <==> x == 1
  {
    assert Nth(1, n) == x * 1 % M;
  }

  lemma PartReturns(k: nat, g: nat, p: nat)
    requires p > 0 && k * g == N && k % p == 0 && Returns(g)
    ensures Returns(N / p)
  {
    Divided(k, p);
    var h := k / p;
    ReturnsMultiple(g, h);
    assert (h * p) * g == (h * g) * p;
    ProductQuotient(h * g, p);
  }

  // ---- every value comes ----

  ghost function Values(n: nat): set<int> {
    if n == 0 then {} else Values(n - 1) + {Nth(1, n - 1)}
  }

  ghost function UpTo(n: nat): set<int> {
    if n == 0 then {} else UpTo(n - 1) + {n}
  }

  lemma {:induction false} UpToSize(n: nat)
    ensures |UpTo(n)| == n && forall x :: x in UpTo(n) <==> 1 <= x <= n
  {
    if n == 0 {
    } else {
      UpToSize(n - 1);
    }
  }

  lemma {:induction false} Where(n: nat, x: int) returns (i: nat)
    requires x in Values(n)
    ensures i < n && Nth(1, i) == x
    decreases n
  {
    if x == Nth(1, n - 1) {
      i := n - 1;
    } else {
      i := Where(n - 1, x);
    }
  }

  /** The next value is a new one. */
  lemma NotYet(n: nat)
    requires n < N
    ensures Nth(1, n) !in Values(n)
  {
    hide Nth, Values;
    if Nth(1, n) in Values(n) {
      var i := Where(n, Nth(1, n));
      PureCycle(1, i, n);
      FullPeriod(n - i);
    }
  }

  lemma {:induction false} ValuesSize(n: nat)
    requires n <= N
    ensures |Values(n)| == n && Values(n) <= UpTo(N)
  {
    hide UpTo, Nth;
    UpToSize(N);
    if n == 0 {
    } else {
      ValuesSize(n - 1);
      NthInRange(1, n - 1);
      NotYet(n - 1);
    }
  }

  lemma SameSize(a: set<int>, b: set<int>)
    requires a <= b && |a| == |b|
    ensures a == b
  {
    var rest := b - a;
    assert b == a + rest;
    assert rest == {};
  }

  /** The run from 1 takes every value that there is. */
  lemma EveryValue(s: int) returns (i: nat)
    requires 1 <= s < M
    ensures i < N && Nth(1, i) == s
  {
    hide Values, UpTo;
    ValuesSize(N);
    UpToSize(N);
    SameSize(Values(N), UpTo(N));
    i := Where(N, s);
  }

  /** Every run comes back to its seed after 2^31 - 2 steps and not before. */
  lemma SeedReturns(s: int, n: nat)
    requires 1 <= s < M
    ensures Nth(s, n) == s <==> n % N == 0
  {
    var i := EveryValue(s);
    Onwards(1, i, n);
    Onwards(1, n, i);
    FullPeriod(n);
    if Nth(s, n) == s {
      PureCycle(1, i, i + n);
    }
  }
}
